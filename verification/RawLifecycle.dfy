/** The life of one Raw object: written plaintext, gzip publication by hard link, registration,
    plaintext removal, and later declaration and removal of every online representation.
    One maintenance worker at a time holds the lock; it may crash between any two steps.
    Readers run concurrently with it. */
module RawLifecycle {
  import opened Wrappers

  type Bytes = seq<bv8>

  /** A file's contents. Compression is lossless; a file being written is torn. */
  datatype File = Text(content: Bytes) | Gzip(content: Bytes) | Torn

  /** What a registry row says about a gzip file: its path, digest and size identify it. */
  datatype Representation = Representation(file: File)

  /** Where the worker stands. Everything it carries is lost in a crash. */
  datatype Stage =
    | Idle
    | Publish
    | FillTemporary(op: nat)
    | Link(op: nat)
    | DropTemporary(op: nat)
    | Register(rep: Representation)
    | VerifyRemoval(rep: Representation)
    | UnlinkPlain(rep: Representation)
    | ConfirmRemoval(rep: Representation)
    | VerifyOnline
    | Declare(plain: bool, gz: bool)
    | RetirePlain(plain: bool, gz: bool)
    | RetireGzip(gz: bool)
    | CheckGone
    | ConfirmGone

  /** Files, registry and worker. `nextOp` names fresh operations. */
  datatype Store = Store(
    plain: Option<File>, gz: Option<File>, temps: map<nat, File>, nextOp: nat,
    registered: Option<Representation>, plainRemoved: bool, declared: bool, onlineRemoved: bool,
    stage: Stage)

  // Verification accepts exactly the manifest's content: see RawStreams.
  predicate PlainMatches(content: Bytes, s: Store) { s.plain.None? || s.plain == Some(Text(content)) }
  predicate GzipMatches(content: Bytes, s: Store) { s.gz.None? || s.gz == Some(Gzip(content)) }

  predicate Publishing(stage: Stage) { stage.Publish? || stage.FillTemporary? || stage.Link? || stage.DropTemporary? }

  predicate Removing(stage: Stage) { stage.Register? || stage.VerifyRemoval? || stage.UnlinkPlain? || stage.ConfirmRemoval? }

  /** `publish_raw_gzip`. */
  function PublishStep(content: Bytes, s: Store): Store {
    match s.stage
    case Publish =>
      if s.gz.Some? then
        if GzipMatches(content, s) && PlainMatches(content, s) then s.(stage := Register(Representation(s.gz.value)))
        else s.(stage := Idle)
      else if s.plain.None? || s.nextOp in s.temps then s.(stage := Idle)
      else s.(temps := s.temps[s.nextOp := Torn], nextOp := s.nextOp + 1, stage := FillTemporary(s.nextOp))
    case FillTemporary(op) =>
      if s.plain == Some(Text(content)) then s.(temps := s.temps[op := Gzip(content)], stage := Link(op))
      else s.(temps := s.temps - {op}, stage := Idle)
    case Link(op) =>
      if op in s.temps && s.temps[op] == Gzip(content) && s.gz.None?
      then s.(gz := Some(s.temps[op]), stage := DropTemporary(op))
      else s.(temps := s.temps - {op}, stage := Idle)
    case DropTemporary(op) =>
      var tidy := s.(temps := s.temps - {op});
      if s.gz == Some(Gzip(content)) then tidy.(stage := Register(Representation(s.gz.value))) else tidy.(stage := Idle)
    case _ => s
  }

  /** The registration, committed before any plaintext unlink, and `remove_verified_plaintext`. */
  function RemoveStep(content: Bytes, s: Store): Store {
    match s.stage
    case Register(rep) =>
      if s.declared then s.(stage := Idle)
      else if s.registered.None? then s.(registered := Some(rep), stage := VerifyRemoval(rep))
      else if s.registered == Some(rep) then s.(stage := VerifyRemoval(rep))
      else s.(stage := Idle)
    case VerifyRemoval(rep) =>
      if s.gz != Some(Gzip(content)) || rep != Representation(s.gz.value) then s.(stage := Idle)
      else if s.plain.None? then s.(stage := ConfirmRemoval(rep))
      else if s.plain == Some(Text(content)) then s.(stage := UnlinkPlain(rep))
      else s.(stage := Idle)
    case UnlinkPlain(rep) => s.(plain := None, stage := ConfirmRemoval(rep))
    case ConfirmRemoval(rep) =>
      if s.registered == Some(rep) then s.(plainRemoved := true, stage := Idle) else s.(stage := Idle)
    case _ => s
  }

  /** `verify_purge_raw`, then `_remove_verified`. */
  function RetireStep(content: Bytes, s: Store): Store {
    match s.stage
    case VerifyOnline =>
      if !PlainMatches(content, s) || !GzipMatches(content, s) then s.(stage := Idle)
      else if s.plain.None? && s.gz.None? && !s.declared then s.(stage := Idle)
      else s.(stage := Declare(s.plain.Some?, s.gz.Some?))
    case Declare(plain, gz) => s.(declared := true, stage := RetirePlain(plain, gz))
    case RetirePlain(plain, gz) =>
      if !plain then s.(stage := RetireGzip(gz))
      else if s.plain.None? then s.(stage := Idle)
      else s.(plain := None, stage := RetireGzip(gz))
    case RetireGzip(gz) =>
      if !gz then s.(stage := CheckGone)
      else if s.gz.None? then s.(stage := Idle)
      else s.(gz := None, stage := CheckGone)
    case CheckGone => if s.plain.Some? || s.gz.Some? then s.(stage := Idle) else s.(stage := ConfirmGone)
    case ConfirmGone => s.(onlineRemoved := true, stage := Idle)
    case _ => s
  }

  /** One step of the worker, as the code takes it; a refusal returns to Idle. */
  function Work(content: Bytes, s: Store): Store {
    if Publishing(s.stage) then PublishStep(content, s)
    else if Removing(s.stage) then RemoveStep(content, s)
    else RetireStep(content, s)
  }

  /** Compression takes objects that are neither declared nor confirmed. */
  function StartCompression(s: Store): Store {
    if s.stage == Idle && !s.declared && !s.plainRemoved then s.(stage := Publish) else s
  }

  function StartRetirement(s: Store): Store {
    if s.stage == Idle && !s.onlineRemoved then s.(stage := VerifyOnline) else s
  }

  /** `read_payload`: plaintext first, gzip as the fallback, each a stat and then an open. */
  datatype Reader = Opening | PlainSeen | PlainMissing | GzipSeen | Returned(payload: Bytes) | Failed

  function Read(s: Store, r: Reader): Reader {
    match r
    case Opening => if s.plain.Some? then PlainSeen else PlainMissing
    case PlainSeen =>
      if s.plain.None? then PlainMissing
      else if s.plain.value.Text? then Returned(s.plain.value.content) else Failed
    case PlainMissing => if s.gz.Some? then GzipSeen else Failed
    case GzipSeen => if s.gz.Some? && s.gz.value.Gzip? then Returned(s.gz.value.content) else Failed
    case _ => r
  }

  /** One event of an execution. */
  datatype Action = Compress | Retire | Step | Crash | Arrive | ReadStep(reader: nat)

  datatype System = System(store: Store, readers: seq<Reader>)

  function Next(content: Bytes, s: System, a: Action): System {
    match a
    case Compress => s.(store := StartCompression(s.store))
    case Retire => s.(store := StartRetirement(s.store))
    case Step => s.(store := Work(content, s.store))
    case Crash => s.(store := s.store.(stage := Idle))
    case Arrive => s.(readers := s.readers + [Opening])
    case ReadStep(i) => if i < |s.readers| then s.(readers := s.readers[i := Read(s.store, s.readers[i])]) else s
  }

  /** The system after a whole execution of a freshly written and manifested object. */
  function Execute(content: Bytes, actions: seq<Action>): System {
    if |actions| == 0 then
      System(Store(Some(Text(content)), None, map[], 0, None, false, false, false, Idle), [])
    else Next(content, Execute(content, actions[..|actions| - 1]), actions[|actions| - 1])
  }

  // ---------------------------------------------------------------------------
  // The invariant
  // ---------------------------------------------------------------------------

  predicate Compressing(stage: Stage) { Publishing(stage) || Removing(stage) }

  ghost predicate StageInvariant(content: Bytes, s: Store) {
    && (Compressing(s.stage) ==> !s.declared && !s.plainRemoved)
    && match s.stage
       case FillTemporary(op) => op < s.nextOp && s.gz.None? && s.plain.Some?
       case Link(op) => op in s.temps && s.temps[op] == Gzip(content) && s.gz.None?
       case DropTemporary(op) => s.gz.Some?
       case Register(rep) => s.gz.Some? && rep == Representation(Gzip(content))
       case VerifyRemoval(rep) => s.gz.Some? && s.registered == Some(rep) && rep == Representation(Gzip(content))
       case UnlinkPlain(rep) => s.gz.Some? && s.registered == Some(rep)
       case ConfirmRemoval(rep) => s.plain.None? && s.registered == Some(rep)
       case Declare(plain, gz) => (plain <==> s.plain.Some?) && (gz <==> s.gz.Some?)
       case RetirePlain(plain, gz) => s.declared && (plain <==> s.plain.Some?) && (gz <==> s.gz.Some?)
       case RetireGzip(gz) => s.declared && s.plain.None? && (gz <==> s.gz.Some?)
       case CheckGone => s.declared && s.plain.None? && s.gz.None?
       case ConfirmGone => s.declared && s.plain.None? && s.gz.None?
       case _ => true
  }

  ghost predicate Sound(content: Bytes, s: Store) {
    && PlainMatches(content, s) && GzipMatches(content, s)
    // Some representation is online until a declaration is committed.
    && (!s.declared ==> s.plain.Some? || s.gz.Some?)
    // Plaintext goes only after its gzip is registered, or after a declaration.
    && (s.plain.None? && !s.declared ==> s.registered.Some?)
    && (s.registered.Some? ==> s.registered.value == Representation(Gzip(content)))
    && (s.registered.Some? && !s.declared ==> s.gz.Some?)
    && (s.plainRemoved ==> s.plain.None? && s.registered.Some?)
    && (s.onlineRemoved ==> s.declared && s.plain.None? && s.gz.None?)
    && (forall op :: op in s.temps ==> op < s.nextOp)
    && StageInvariant(content, s)
  }

  ghost predicate ReaderSound(content: Bytes, s: Store, r: Reader) {
    match r
    case Returned(payload) => payload == content
    case Failed => s.declared
    case PlainMissing => s.declared || s.gz.Some?
    case GzipSeen => s.declared || s.gz.Some?
    case _ => true
  }

  lemma PublishKeepsSound(content: Bytes, s: Store)
    requires Sound(content, s) && Publishing(s.stage)
    ensures
      var next := PublishStep(content, s);
      Sound(content, next) && next.declared == s.declared && (s.gz.Some? ==> next.gz.Some?)
  {
  }

  lemma RemoveKeepsSound(content: Bytes, s: Store)
    requires Sound(content, s) && Removing(s.stage)
    ensures
      var next := RemoveStep(content, s);
      Sound(content, next) && next.declared == s.declared && (s.gz.Some? ==> next.gz.Some?)
  {
  }

  lemma DeclaringKeepsSound(content: Bytes, s: Store)
    requires Sound(content, s) && (s.stage.VerifyOnline? || s.stage.Declare?)
    ensures
      var next := RetireStep(content, s);
      Sound(content, next) && (s.declared ==> next.declared) && next.gz == s.gz
  {
  }

  lemma UnlinkingKeepsSound(content: Bytes, s: Store)
    requires Sound(content, s) && (s.stage.RetirePlain? || s.stage.RetireGzip?)
    ensures
      var next := RetireStep(content, s);
      Sound(content, next) && next.declared
  {
  }

  lemma ConfirmingKeepsSound(content: Bytes, s: Store)
    requires Sound(content, s) && !Compressing(s.stage)
    requires !s.stage.VerifyOnline? && !s.stage.Declare? && !s.stage.RetirePlain? && !s.stage.RetireGzip?
    ensures
      var next := RetireStep(content, s);
      Sound(content, next) && (s.declared ==> next.declared) && next.gz == s.gz
  {
  }

  lemma RetireKeepsSound(content: Bytes, s: Store)
    requires Sound(content, s) && !Compressing(s.stage)
    ensures
      var next := RetireStep(content, s);
      Sound(content, next) && (s.declared ==> next.declared) && (s.gz.Some? ==> next.gz.Some? || next.declared)
  {
    hide RetireStep, StageInvariant;
    if s.stage.VerifyOnline? || s.stage.Declare? { DeclaringKeepsSound(content, s); }
    else if s.stage.RetirePlain? || s.stage.RetireGzip? { UnlinkingKeepsSound(content, s); }
    else { ConfirmingKeepsSound(content, s); }
  }

  lemma WorkKeepsSound(content: Bytes, s: Store)
    requires Sound(content, s)
    ensures Sound(content, Work(content, s))
    ensures s.declared ==> Work(content, s).declared
    ensures s.gz.Some? ==> Work(content, s).gz.Some? || Work(content, s).declared
  {
    hide Sound, PublishStep, RemoveStep, RetireStep;
    if Publishing(s.stage) {
      PublishKeepsSound(content, s);
    } else if Removing(s.stage) {
      RemoveKeepsSound(content, s);
    } else {
      RetireKeepsSound(content, s);
    }
  }

  lemma NewObjectIsSound(content: Bytes)
    ensures Sound(content, Execute(content, []).store) && Execute(content, []).readers == []
    ensures var s := Execute(content, []).store;
      s.plain == Some(Text(content)) && s.gz.None? && s.temps == map[] && s.registered.None? && !s.plainRemoved && !s.declared
  {
  }

  lemma CrashKeepsSound(content: Bytes, s: Store)
    requires Sound(content, s)
    ensures Sound(content, s.(stage := Idle))
  {
  }

  lemma StartKeepsSound(content: Bytes, s: Store)
    requires Sound(content, s)
    ensures Sound(content, StartCompression(s)) && Sound(content, StartRetirement(s))
  {
  }

  /** A reader's own step, and what the worker does meanwhile, keep the reader right. */
  lemma ReadKeepsSound(content: Bytes, s: Store, r: Reader)
    requires Sound(content, s) && ReaderSound(content, s, r)
    ensures ReaderSound(content, s, Read(s, r))
  {
  }

  lemma ReaderUndisturbed(content: Bytes, s: Store, s': Store, r: Reader)
    requires ReaderSound(content, s, r) && (s.declared ==> s'.declared) && (s.gz.Some? ==> s'.gz.Some? || s'.declared)
    ensures ReaderSound(content, s', r)
  {
  }

  lemma NextKeepsSound(content: Bytes, s: System, a: Action)
    requires Sound(content, s.store) && forall i :: 0 <= i < |s.readers| ==> ReaderSound(content, s.store, s.readers[i])
    ensures
      var next := Next(content, s, a);
      Sound(content, next.store) && forall i :: 0 <= i < |next.readers| ==> ReaderSound(content, next.store, next.readers[i])
  {
    hide Sound, ReaderSound, Work, Read;
    WorkKeepsSound(content, s.store);
    CrashKeepsSound(content, s.store);
    StartKeepsSound(content, s.store);
    NewReaderIsSound(content, s.store);
    var next := Next(content, s, a);
    forall i | 0 <= i < |next.readers| ensures ReaderSound(content, next.store, next.readers[i]) {
      if i < |s.readers| {
        ReadKeepsSound(content, s.store, s.readers[i]);
        ReaderUndisturbed(content, s.store, next.store, s.readers[i]);
      }
    }
  }

  lemma NewReaderIsSound(content: Bytes, s: Store)
    ensures ReaderSound(content, s, Opening)
  {
  }

  /** Every execution keeps the store sound, and every reader returns the manifest's bytes or
      fails only after a declaration. */
  lemma {:induction false} EveryExecutionIsSound(content: Bytes, actions: seq<Action>)
    ensures
      var s := Execute(content, actions);
      Sound(content, s.store) && forall i :: 0 <= i < |s.readers| ==> ReaderSound(content, s.store, s.readers[i])
  {
    hide Sound, ReaderSound, Next;
    if |actions| == 0 {
      NewObjectIsSound(content);
    } else {
      EveryExecutionIsSound(content, actions[..|actions| - 1]);
      NextKeepsSound(content, Execute(content, actions[..|actions| - 1]), actions[|actions| - 1]);
    }
  }

  /** Reads are safe: whatever crashed and whatever ran meanwhile, a read that finishes returns
      exactly the manifest's bytes, and it can fail only once a declaration is committed. */
  lemma ReadsAreSafe(content: Bytes, actions: seq<Action>, i: nat)
    requires i < |Execute(content, actions).readers|
    ensures
      var s := Execute(content, actions);
      && (s.readers[i].Returned? ==> s.readers[i].payload == content)
      && (s.readers[i].Failed? ==> s.store.declared)
  {
    EveryExecutionIsSound(content, actions);
  }

  lemma SoundReadFinishes(content: Bytes, s: Store)
    requires Sound(content, s)
    ensures
      var done := Read(s, Read(s, Read(s, Read(s, Opening))));
      done == Returned(content) || (done == Failed && s.declared)
  {
    hide StageInvariant;
  }

  function ReaderTurns(reader: nat): seq<Action> { [Arrive, ReadStep(reader), ReadStep(reader), ReadStep(reader), ReadStep(reader)] }

  lemma NewReaderRuns(content: Bytes, actions: seq<Action>)
    ensures
      var s := Execute(content, actions);
      Execute(content, actions + ReaderTurns(|s.readers|))
        == s.(readers := s.readers + [Read(s.store, Read(s.store, Read(s.store, Read(s.store, Opening))))])
  {
    hide Read, Work, Execute;
    var i := |Execute(content, actions).readers|;
    var arrived := actions + [Arrive];
    var first := arrived + [ReadStep(i)];
    var second := first + [ReadStep(i)];
    var third := second + [ReadStep(i)];
    OneMore(content, actions, Arrive);
    OneMore(content, arrived, ReadStep(i));
    OneMore(content, first, ReadStep(i));
    OneMore(content, second, ReadStep(i));
    OneMore(content, third, ReadStep(i));
    assert third + [ReadStep(i)] == actions + ReaderTurns(i);
  }

  /** In any execution a reader that arrives and is left alone finishes within four steps, with the content
      unless the object was declared. */
  lemma FreshReadFinishes(content: Bytes, actions: seq<Action>)
    ensures
      var s := Execute(content, actions);
      var i := |s.readers|;
      var after := Execute(content, actions + ReaderTurns(i));
      && after.store == s.store && |after.readers| == i + 1 && after.readers[..i] == s.readers
      && (after.readers[i] == Returned(content) || (after.readers[i] == Failed && s.store.declared))
  {
    hide Sound, Read, Execute;
    EveryExecutionIsSound(content, actions);
    NewReaderRuns(content, actions);
    SoundReadFinishes(content, Execute(content, actions).store);
  }

  /** Removal is safe: plaintext is unlinked only after its gzip is registered or the object is
      declared; the last representation only after a declaration; and a confirmed retirement
      means neither representation exists. */
  lemma RemovalIsSafe(content: Bytes, actions: seq<Action>)
    ensures
      var s := Execute(content, actions).store;
      && (s.plain.None? ==> s.declared || (s.registered == Some(Representation(Gzip(content))) && s.gz == Some(Gzip(content))))
      && (s.plain.None? && s.gz.None? ==> s.declared)
      && (s.onlineRemoved ==> s.declared && s.plain.None? && s.gz.None?)
  {
    EveryExecutionIsSound(content, actions);
  }

  // ---------------------------------------------------------------------------
  // Uninterrupted runs
  // ---------------------------------------------------------------------------

  /** Work still ahead of the worker. */
  function Rank(stage: Stage): nat {
    match stage
    case Idle => 0
    case Publish => 8
    case FillTemporary(_) => 7
    case Link(_) => 6
    case DropTemporary(_) => 5
    case Register(_) => 4
    case VerifyRemoval(_) => 3
    case UnlinkPlain(_) => 2
    case ConfirmRemoval(_) => 1
    case VerifyOnline => 6
    case Declare(_, _) => 5
    case RetirePlain(_, _) => 4
    case RetireGzip(_) => 3
    case CheckGone => 2
    case ConfirmGone => 1
  }

  /** The worker left alone until it is idle again. */
  function Finish(content: Bytes, s: Store): (done: Store)
    ensures done.stage == Idle
    decreases Rank(s.stage)
  {
    if s.stage == Idle then s
    else
      WorkRanks(content, s);
      Finish(content, Work(content, s))
  }

  function Steps(n: nat): seq<Action> { if n == 0 then [] else Steps(n - 1) + [Step] }

  lemma {:induction false} FirstStep(n: nat)
    ensures Steps(n + 1) == [Step] + Steps(n)
  {
    if n > 0 {
      FirstStep(n - 1);
      assert [Step] + (Steps(n - 1) + [Step]) == [Step] + Steps(n - 1) + [Step];
    }
  }

  lemma OneMore(content: Bytes, actions: seq<Action>, a: Action)
    ensures Execute(content, actions + [a]) == Next(content, Execute(content, actions), a)
  {
    hide Next;
    assert (actions + [a])[..|actions|] == actions;
  }

  /** Left to itself, a worker in an execution gets to where its pass ends. */
  lemma {:induction false} StepsFinish(content: Bytes, actions: seq<Action>) returns (n: nat)
    ensures Execute(content, actions + Steps(n)) == Execute(content, actions).(store := Finish(content, Execute(content, actions).store))
    decreases Rank(Execute(content, actions).store.stage)
  {
    var s := Execute(content, actions).store;
    hide Execute, Work;
    if s.stage == Idle {
      n := 0;
      assert actions + [] == actions;
    } else {
      WorkRanks(content, s);
      OneMore(content, actions, Step);
      var rest := StepsFinish(content, actions + [Step]);
      n := rest + 1;
      FirstStep(rest);
      assert actions + ([Step] + Steps(rest)) == actions + [Step] + Steps(rest);
    }
  }

  /** Any execution can be crashed, started again in either service and run to its end, which is then that
      of the uninterrupted pass over the files and the registry as the crash left them. */
  lemma RerunsAreExecutions(content: Bytes, actions: seq<Action>) returns (compress: nat, retire: nat)
    ensures
      var s := Execute(content, actions);
      && Execute(content, actions + [Crash]) == s.(store := s.store.(stage := Idle))
      && Execute(content, actions + [Crash, Compress] + Steps(compress))
         == s.(store := Finish(content, StartCompression(s.store.(stage := Idle))))
      && Execute(content, actions + [Crash, Retire] + Steps(retire))
         == s.(store := Finish(content, StartRetirement(s.store.(stage := Idle))))
  {
    hide Execute, Finish, StartCompression, StartRetirement, Work;
    OneMore(content, actions, Crash);
    OneMore(content, actions + [Crash], Compress);
    OneMore(content, actions + [Crash], Retire);
    assert actions + [Crash, Compress] == actions + [Crash] + [Compress];
    assert actions + [Crash, Retire] == actions + [Crash] + [Retire];
    compress := StepsFinish(content, actions + [Crash, Compress]);
    retire := StepsFinish(content, actions + [Crash, Retire]);
  }

  lemma PublishRanks(content: Bytes, s: Store)
    requires Publishing(s.stage)
    ensures Rank(PublishStep(content, s).stage) < Rank(s.stage)
  {
  }

  predicate RemovesTo(a: Stage, b: Stage) {
    || b.Idle? || (a.Register? && b.VerifyRemoval?) || (a.VerifyRemoval? && (b.UnlinkPlain? || b.ConfirmRemoval?))
    || (a.UnlinkPlain? && b.ConfirmRemoval?)
  }

  lemma RemoveAdvances(content: Bytes, s: Store)
    requires Removing(s.stage)
    ensures RemovesTo(s.stage, RemoveStep(content, s).stage)
  {
  }

  lemma RemoveRanks(content: Bytes, s: Store)
    requires Removing(s.stage)
    ensures Rank(RemoveStep(content, s).stage) < Rank(s.stage)
  {
    hide RemoveStep;
    RemoveAdvances(content, s);
  }

  predicate RetiresTo(a: Stage, b: Stage) {
    || b.Idle? || (a.VerifyOnline? && b.Declare?) || (a.Declare? && b.RetirePlain?) || (a.RetirePlain? && b.RetireGzip?)
    || (a.RetireGzip? && b.CheckGone?) || (a.CheckGone? && b.ConfirmGone?)
  }

  lemma RetireAdvances(content: Bytes, s: Store)
    requires !Compressing(s.stage)
    ensures RetiresTo(s.stage, RetireStep(content, s).stage)
  {
  }

  lemma RetireRanks(content: Bytes, s: Store)
    requires !Compressing(s.stage) && s.stage != Idle
    ensures Rank(RetireStep(content, s).stage) < Rank(s.stage)
  {
    hide RetireStep;
    RetireAdvances(content, s);
  }

  lemma WorkRanks(content: Bytes, s: Store)
    requires s.stage != Idle
    ensures Rank(Work(content, s).stage) < Rank(s.stage)
  {
    hide PublishStep, RemoveStep, RetireStep, Rank;
    if Publishing(s.stage) { PublishRanks(content, s); } else if Removing(s.stage) { RemoveRanks(content, s); } else { RetireRanks(content, s); }
  }

  lemma FinishStep(content: Bytes, s: Store)
    requires s.stage != Idle
    ensures Finish(content, s) == Finish(content, Work(content, s))
  {
    hide Work, Rank;
  }

  lemma FinishIdle(content: Bytes, s: Store)
    requires s.stage == Idle
    ensures Finish(content, s) == s
  {
  }

  lemma {:induction false} FinishKeepsSound(content: Bytes, s: Store)
    requires Sound(content, s)
    ensures Sound(content, Finish(content, s))
    decreases Rank(s.stage)
  {
    hide Work, Sound, Rank, Finish;
    if s.stage != Idle {
      WorkKeepsSound(content, s);
      WorkRanks(content, s);
      FinishKeepsSound(content, Work(content, s));
      FinishStep(content, s);
    } else { FinishIdle(content, s); }
  }

  ghost predicate Archived(content: Bytes, s: Store) {
    s.plain.None? && s.gz == Some(Gzip(content)) && s.registered == Some(Representation(Gzip(content))) && s.plainRemoved
  }

  lemma {:induction false} CompressionFinishes(content: Bytes, s: Store)
    requires Sound(content, s) && Compressing(s.stage) && !s.declared
    ensures Archived(content, Finish(content, s)) && !Finish(content, s).declared
    decreases Rank(s.stage)
  {
    hide Finish;
    var next := Work(content, s);
    WorkKeepsSound(content, s);
    WorkRanks(content, s);
    FinishStep(content, s);
    if s.stage.ConfirmRemoval? {
      FinishIdle(content, next);
    } else {
      CompressionGoesOn(content, s);
      hide Work, Sound, Rank;
      CompressionFinishes(content, next);
    }
  }

  lemma CompressionGoesOn(content: Bytes, s: Store)
    requires Sound(content, s) && Compressing(s.stage) && !s.stage.ConfirmRemoval? && !s.declared
    ensures Compressing(Work(content, s).stage) && !Work(content, s).declared
  {
  }

  predicate Retiring(stage: Stage) {
    stage.VerifyOnline? || stage.Declare? || stage.RetirePlain? || stage.RetireGzip? || stage.CheckGone? || stage.ConfirmGone?
  }

  lemma {:induction false} RetirementFinishes(content: Bytes, s: Store)
    requires Sound(content, s) && Retiring(s.stage)
    ensures Finish(content, s).onlineRemoved
    decreases Rank(s.stage)
  {
    hide Finish;
    var next := Work(content, s);
    WorkKeepsSound(content, s);
    WorkRanks(content, s);
    FinishStep(content, s);
    if s.stage.ConfirmGone? {
      FinishIdle(content, next);
    } else {
      RetirementGoesOn(content, s);
      hide Work, Sound, Rank;
      RetirementFinishes(content, next);
    }
  }

  lemma RetirementGoesOn(content: Bytes, s: Store)
    requires Sound(content, s) && Retiring(s.stage) && !s.stage.ConfirmGone?
    ensures Retiring(Work(content, s).stage)
  {
  }

  /** From any crash point of any execution, one uninterrupted rerun reaches the final state:
      compression of an undeclared object, and retirement of any object. */
  lemma OneRerunCompletes(content: Bytes, actions: seq<Action>)
    ensures
      var crashed := Execute(content, actions).store.(stage := Idle);
      && (!crashed.declared ==> Archived(content, Finish(content, StartCompression(crashed))))
      && Finish(content, StartRetirement(crashed)).onlineRemoved
  {
    hide Sound, Finish, Archived, Execute;
    EveryExecutionIsSound(content, actions);
    var s := Execute(content, actions).store;
    CrashKeepsSound(content, s);
    CompressArchives(content, s.(stage := Idle));
    PurgeRemoves(content, s.(stage := Idle));
  }

  // ---------------------------------------------------------------------------
  // Refusals, from any state of the files and the registry
  // ---------------------------------------------------------------------------

  /** A file that is there does not hold the manifest's content. */
  ghost predicate Altered(content: Bytes, s: Store) { !PlainMatches(content, s) || !GzipMatches(content, s) }

  /** Same files at the object's path and same registry rows. */
  ghost predicate SameObject(s: Store, t: Store) {
    && s.plain == t.plain && s.gz == t.gz && s.registered == t.registered && s.plainRemoved == t.plainRemoved
    && s.declared == t.declared && s.onlineRemoved == t.onlineRemoved
  }

  /** Neither service touches an object whose files were altered: nothing is linked, registered,
      unlinked or declared. */
  lemma AlteredIsKept(content: Bytes, s: Store)
    requires s.stage == Idle && Altered(content, s)
    ensures SameObject(s, Finish(content, StartCompression(s))) && SameObject(s, Finish(content, StartRetirement(s)))
  {
    AlteredIsNotPublished(content, s);
    AlteredIsNotDeclared(content, s);
  }

  lemma AlteredIsNotPublished(content: Bytes, s: Store)
    requires s.stage == Idle && Altered(content, s)
    ensures SameObject(s, Finish(content, StartCompression(s)))
  {
    hide Finish, RemoveStep, RetireStep;
    var start := StartCompression(s);
    if start == s {
      FinishIdle(content, s);
    } else {
      FinishStep(content, start);
      var next := Work(content, start);
      if next.stage == Idle { FinishIdle(content, next); } else { FillSteps(content, next, s.nextOp); }
    }
  }

  lemma AlteredIsNotDeclared(content: Bytes, s: Store)
    requires s.stage == Idle && Altered(content, s)
    ensures SameObject(s, Finish(content, StartRetirement(s)))
  {
    hide Finish, Work;
    FinishIdle(content, s);
    if !s.onlineRemoved { VerifySteps(content, StartRetirement(s)); }
  }

  /** From any state, a gzip is published exactly from the worker's own complete temporary, and never over
      another. */
  lemma PublicationIsExclusive(content: Bytes, s: Store)
    ensures
      var next := PublishStep(content, s);
      && next.plain == s.plain && next.gz == (if LinksGzip(content, s) then Some(Gzip(content)) else s.gz)
  {
    hide GzipMatches, PlainMatches;
    if s.stage.Link? { LinkIsExclusive(content, s); }
  }

  lemma LinkIsExclusive(content: Bytes, s: Store)
    requires s.stage.Link?
    ensures PublishStep(content, s).plain == s.plain
    ensures PublishStep(content, s).gz == if LinksGzip(content, s) then Some(Gzip(content)) else s.gz
  {
  }

  predicate LinksGzip(content: Bytes, s: Store) {
    s.gz.None? && s.stage.Link? && s.stage.op in s.temps && s.temps[s.stage.op] == Gzip(content)
  }

  /** A temporary is made, incomplete at first, exactly for plaintext without a gzip and under a free name,
      and its operation does not end without dropping it. */
  lemma TemporaryEndsWithItsOperation(content: Bytes, s: Store)
    ensures
      var next := PublishStep(content, s);
      && (s.stage == Publish ==>
            && (next.stage == FillTemporary(s.nextOp) <==> s.gz.None? && s.plain.Some? && s.nextOp !in s.temps)
            && (next.stage.FillTemporary? ==> next.temps == s.temps[s.nextOp := Torn] && next.nextOp == s.nextOp + 1))
      && (s.stage.Link? || s.stage.FillTemporary? || s.stage.DropTemporary? ==> Publishing(next.stage) || s.stage.op !in next.temps)
  {
  }

  /** No temporary of another operation is filled, linked or dropped, not even one that was found in its
      place. */
  lemma TemporariesAreOwned(content: Bytes, s: Store, op: nat)
    requires op in s.temps
    requires s.stage.Link? || s.stage.FillTemporary? || s.stage.DropTemporary? ==> op != s.stage.op
    ensures op in PublishStep(content, s).temps && PublishStep(content, s).temps[op] == s.temps[op]
  {
  }

  /** A registration is never replaced, and none is made of a declared object. */
  lemma RegistrationsStand(content: Bytes, s: Store, rep: Representation)
    requires s.stage == Register(rep)
    ensures
      var next := RemoveStep(content, s);
      && (next.stage == VerifyRemoval(rep) <==> !s.declared && (s.registered.None? || s.registered == Some(rep)))
      && (next.stage == VerifyRemoval(rep) ==> next == s.(registered := Some(rep), stage := VerifyRemoval(rep)))
      && (next.stage != VerifyRemoval(rep) ==> next == s.(stage := Idle))
  {
  }

  /** Plaintext is cleared for removal only against the registered gzip of the manifest's content. */
  lemma ClearedAgainstGzip(content: Bytes, s: Store, rep: Representation)
    requires s.stage == VerifyRemoval(rep)
    ensures
      var next := RemoveStep(content, s);
      && SameObject(s, next)
      && (next.stage == UnlinkPlain(rep) <==>
            s.gz == Some(Gzip(content)) && rep == Representation(Gzip(content)) && s.plain == Some(Text(content)))
      && (next.stage == ConfirmRemoval(rep) <==> s.gz == Some(Gzip(content)) && rep == Representation(Gzip(content)) && s.plain.None?)
  {
  }

  /** A retirement is confirmed only when both representations are gone, and each unlink needs the file
      that was verified. */
  lemma ConfirmedWhenGone(content: Bytes, s: Store)
    ensures s.stage == CheckGone ==> (RetireStep(content, s).stage == ConfirmGone <==> s.plain.None? && s.gz.None?)
    ensures s.stage == RetirePlain(true, true) && s.plain.None? ==> RetireStep(content, s) == s.(stage := Idle)
    ensures s.stage == RetireGzip(true) && s.gz.None? ==> RetireStep(content, s) == s.(stage := Idle)
  {
  }

  // ---------------------------------------------------------------------------
  // The implementation of an uninterrupted pass
  // ---------------------------------------------------------------------------

  /** The steps of publication from filling the temporary file to dropping it. */
  lemma FillSteps(content: Bytes, s: Store, op: nat)
    requires s.stage == FillTemporary(op) && s.gz.None?
    ensures Finish(content, s) ==
      if s.plain == Some(Text(content))
      then Finish(content, s.(temps := s.temps[op := Gzip(content)] - {op}, gz := Some(Gzip(content)),
                              stage := Register(Representation(Gzip(content)))))
      else s.(temps := s.temps - {op}, stage := Idle)
  {
    hide Finish, RemoveStep, RetireStep;
    FinishStep(content, s);
    if s.plain != Some(Text(content)) {
      FinishIdle(content, s.(temps := s.temps - {op}, stage := Idle));
    } else {
      var filled := s.(temps := s.temps[op := Gzip(content)], stage := Link(op));
      FinishStep(content, filled);
      FinishStep(content, filled.(gz := Some(Gzip(content)), stage := DropTemporary(op)));
    }
  }

  /** The steps of retirement up to the committed declaration. */
  lemma VerifySteps(content: Bytes, s: Store)
    requires s.stage == VerifyOnline
    ensures Finish(content, s) ==
      if PlainMatches(content, s) && GzipMatches(content, s) && (s.plain.Some? || s.gz.Some? || s.declared)
      then Finish(content, s.(declared := true, stage := RetirePlain(s.plain.Some?, s.gz.Some?)))
      else s.(stage := Idle)
  {
    hide Finish, PublishStep, RemoveStep;
    FinishStep(content, s);
    FinishIdle(content, s.(stage := Idle));
    FinishStep(content, s.(stage := Declare(s.plain.Some?, s.gz.Some?)));
  }

  /** One object's files and registry rows, updated in place. */
  class RawObject {
    const content: Bytes
    var plain: Option<File>
    var gz: Option<File>
    var temps: map<nat, File>
    var nextOp: nat
    var registered: Option<Representation>
    var plainRemoved: bool
    var declared: bool
    var onlineRemoved: bool

    constructor (content: Bytes)
      ensures this.content == content && View(Idle) == Execute(content, []).store
    {
      this.content := content;
      plain, gz, temps, nextOp := Some(Text(content)), None, map[], 0;
      registered, plainRemoved, declared, onlineRemoved := None, false, false, false;
    }

    ghost function View(stage: Stage): Store
      reads this
    {
      Store(plain, gz, temps, nextOp, registered, plainRemoved, declared, onlineRemoved, stage)
    }

    /** `publish_raw_gzip`: what is left of the pass continues from the registration. */
    method PublishGzip() returns (rep: Option<Representation>)
      modifies this
      ensures Finish(content, old(View(Publish))) ==
        if rep.Some? then Finish(content, View(Register(rep.value))) else View(Idle)
    {
      hide Finish, RemoveStep, RetireStep;
      FinishStep(content, View(Publish));
      FinishIdle(content, View(Idle));
      if gz.Some? {
        if gz == Some(Gzip(content)) && (plain.None? || plain == Some(Text(content))) {
          return Some(Representation(gz.value));
        }
        return None;
      }
      var op := nextOp;
      if plain.None? || op in temps {
        return None;
      }
      temps, nextOp := temps[op := Torn], nextOp + 1;
      rep := FillAndLink(op);
    }

    /** The part of publication that writes and links the operation's temporary file. */
    method FillAndLink(op: nat) returns (rep: Option<Representation>)
      requires gz.None?
      modifies this
      ensures Finish(content, old(View(FillTemporary(op)))) ==
        if rep.Some? then Finish(content, View(Register(rep.value))) else View(Idle)
    {
      hide Finish, Work;
      FillSteps(content, View(FillTemporary(op)), op);
      if plain != Some(Text(content)) {
        temps := temps - {op};
        return None;
      }
      temps := temps[op := Gzip(content)];
      gz := Some(temps[op]);
      temps := temps - {op};
      rep := Some(Representation(gz.value));
    }

    /** `register`: refused once declared or when another representation is on record. */
    method RegisterRepresentation(rep: Representation) returns (ok: bool)
      modifies this`registered
      ensures Finish(content, old(View(Register(rep)))) == if ok then Finish(content, View(VerifyRemoval(rep))) else View(Idle)
    {
      hide Finish, PublishStep, RetireStep;
      FinishStep(content, View(Register(rep)));
      FinishIdle(content, View(Idle));
      if declared {
        return false;
      }
      if registered.None? {
        registered := Some(rep);
      }
      ok := registered == Some(rep);
    }

    /** `remove_verified_plaintext`: nothing to unlink when a crash came after the unlink. */
    method RemoveVerifiedPlaintext(rep: Representation) returns (ok: bool)
      modifies this`plain
      ensures Finish(content, old(View(VerifyRemoval(rep)))) == if ok then Finish(content, View(ConfirmRemoval(rep))) else View(Idle)
    {
      hide Finish, PublishStep, RetireStep;
      FinishStep(content, View(VerifyRemoval(rep)));
      FinishIdle(content, View(Idle));
      if gz != Some(Gzip(content)) || rep != Representation(gz.value) {
        return false;
      }
      if plain.None? {
        return true;
      }
      if plain != Some(Text(content)) {
        return false;
      }
      FinishStep(content, View(UnlinkPlain(rep)));
      plain := None;
      ok := true;
    }

    /** `confirm`: records the removal of the registered representation's plaintext. */
    method ConfirmPlaintextRemoved(rep: Representation)
      modifies this`plainRemoved
      ensures View(Idle) == Finish(content, old(View(ConfirmRemoval(rep))))
    {
      hide Finish, PublishStep, RetireStep;
      FinishStep(content, View(ConfirmRemoval(rep)));
      if registered == Some(rep) {
        plainRemoved := true;
      }
      FinishIdle(content, View(Idle));
    }

    /** One object of the service's loop: publish, register, remove, confirm. Left alone on any
        sound undeclared object it archives it. */
    method Compress()
      modifies this
      ensures View(Idle) == Finish(content, StartCompression(old(View(Idle))))
      ensures old(Sound(content, View(Idle)) && !declared) ==> Archived(content, View(Idle))
    {
      hide Finish, Work, Sound;
      FinishIdle(content, View(Idle));
      CompressArchives(content, View(Idle));
      if declared || plainRemoved {
        return;
      }
      var rep := PublishGzip();
      if rep.Some? {
        var registeredNow := RegisterRepresentation(rep.value);
        if registeredNow {
          var removed := RemoveVerifiedPlaintext(rep.value);
          if removed {
            ConfirmPlaintextRemoved(rep.value);
          }
        }
      }
    }

    /** `verify_purge_raw` and the declaration: refuse anything but the manifested content, and
        a first purge of an object with nothing online. */
    method VerifyAndDeclare() returns (found: Option<(bool, bool)>)
      modifies this`declared
      ensures Finish(content, old(View(VerifyOnline))) ==
        if found.Some? then Finish(content, View(RetirePlain(found.value.0, found.value.1))) else View(Idle)
    {
      hide Finish, Work;
      VerifySteps(content, View(VerifyOnline));
      if !(plain.None? || plain == Some(Text(content))) || !(gz.None? || gz == Some(Gzip(content))) {
        return None;
      }
      if plain.None? && gz.None? && !declared {
        return None;
      }
      found := Some((plain.Some?, gz.Some?));
      declared := true;
    }

    /** `_remove_verified` after its declaration: unlink exactly what was verified, check, confirm. */
    method RemoveVerified(hadPlain: bool, hadGzip: bool)
      modifies this
      ensures View(Idle) == Finish(content, old(View(RetirePlain(hadPlain, hadGzip))))
    {
      hide Finish, PublishStep, RemoveStep;
      FinishStep(content, View(RetirePlain(hadPlain, hadGzip)));
      FinishIdle(content, View(Idle));
      if hadPlain {
        if plain.None? {
          return;
        }
        plain := None;
      }
      RemoveVerifiedGzip(hadGzip);
    }

    method RemoveVerifiedGzip(hadGzip: bool)
      modifies this
      ensures View(Idle) == Finish(content, old(View(RetireGzip(hadGzip))))
    {
      hide Finish, PublishStep, RemoveStep;
      FinishStep(content, View(RetireGzip(hadGzip)));
      FinishIdle(content, View(Idle));
      if hadGzip {
        if gz.None? {
          return;
        }
        gz := None;
      }
      ConfirmGoneOnline();
    }

    method ConfirmGoneOnline()
      modifies this`onlineRemoved
      ensures View(Idle) == Finish(content, old(View(CheckGone)))
    {
      hide Finish, PublishStep, RemoveStep;
      FinishStep(content, View(CheckGone));
      FinishIdle(content, View(Idle));
      if plain.Some? || gz.Some? {
        return;
      }
      FinishStep(content, View(ConfirmGone));
      onlineRemoved := true;
      FinishIdle(content, View(Idle));
    }

    /** One object of the monthly purge. Left alone on any sound object it leaves nothing online. */
    method Purge()
      modifies this
      ensures View(Idle) == Finish(content, StartRetirement(old(View(Idle))))
      ensures old(Sound(content, View(Idle))) ==> onlineRemoved && plain.None? && gz.None? && declared
    {
      hide Finish, Work, Sound;
      FinishIdle(content, View(Idle));
      PurgeRemoves(content, View(Idle));
      if onlineRemoved {
        return;
      }
      var found := VerifyAndDeclare();
      if found.Some? {
        RemoveVerified(found.value.0, found.value.1);
      }
    }
  }

  lemma RemovedIsArchived(content: Bytes, s: Store)
    requires Sound(content, s) && s.stage == Idle && !s.declared && s.plainRemoved
    ensures Archived(content, Finish(content, StartCompression(s)))
  {
    FinishIdle(content, s);
    hide Finish;
  }

  lemma CompressArchives(content: Bytes, s: Store)
    requires s.stage == Idle
    ensures Sound(content, s) && !s.declared ==> Archived(content, Finish(content, StartCompression(s)))
  {
    hide Sound, Finish;
    if Sound(content, s) && !s.declared {
      StartKeepsSound(content, s);
      if !s.plainRemoved { CompressionFinishes(content, StartCompression(s)); } else { RemovedIsArchived(content, s); }
    }
  }

  lemma GoneWhenConfirmed(content: Bytes, s: Store)
    requires Sound(content, s) && s.onlineRemoved
    ensures s.plain.None? && s.gz.None? && s.declared
  {
  }

  lemma PurgeRemoves(content: Bytes, s: Store)
    requires s.stage == Idle
    ensures
      var done := Finish(content, StartRetirement(s));
      Sound(content, s) ==> done.onlineRemoved && done.plain.None? && done.gz.None? && done.declared
  {
    hide Sound, Finish;
    if Sound(content, s) {
      StartKeepsSound(content, s);
      FinishKeepsSound(content, StartRetirement(s));
      if !s.onlineRemoved { RetirementFinishes(content, StartRetirement(s)); } else { FinishIdle(content, s); }
      GoneWhenConfirmed(content, Finish(content, StartRetirement(s)));
    }
  }
}

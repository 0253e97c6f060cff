/**
 Writing, deleting and reading files with optimistic concurrency control
 (packages/storage/src/storage.ts): a session remembers the entity tag of each file it has
 read or written, and makes its writes conditional on it.
 */
module GaiaStorage {
  import opened Results
  import opened GaiaHub

  /** The hub, and the tags that the session has recorded. */
  datatype World = World(hub: Hub, etags: map<Path, Etag>) {
    function Recorded(path: Path): Option<Etag> {
      if path in etags then Some(etags[path]) else None
    }
  }

  /** What the environment does around one request: others act, then the request meets its fate. */
  datatype Leg = Leg(before: seq<Other>, fate: Fate)

  datatype Script = Script(first: Leg, reconnects: bool, second: Leg)

  /** A write that took effect: the version it replaced, and the one it made. */
  datatype Effect = Effect(replaced: Option<Etag>, written: Etag)

  datatype Outcome = Outcome(world: World, result: Result<(), Failure>, effects: seq<Effect>)

  // ----- putFile

  /** uploadFn, with the precondition fixed when putFile was called. */
  function Attempt(w: World, path: Path, content: Content, pre: Precondition, leg: Leg): Outcome {
    var hub := Interfere(w.hub, leg.before);
    var (after, reply) := Upload(hub, path, content, pre, leg.fate);
    var effects := if after == hub then [] else [Effect(hub.Version(path), hub.next)];
    match reply
    case Ok(None) => Outcome(World(after, w.etags), Ok(()), effects)
    case Ok(Some(etag)) => Outcome(World(after, w.etags[path := etag]), Ok(()), effects)
    case Err(failure) => Outcome(World(after, w.etags), Err(failure), effects)
  }

  function PutPrecondition(w: World, path: Path, ignoreEtag: bool): Precondition {
    if ignoreEtag then Unconditional
    else UploadPrecondition(path !in w.etags, w.Recorded(path), false)
  }

  function PutOutcome(w: World, path: Path, content: Content, ignoreEtag: bool, script: Script): Outcome {
    var pre := PutPrecondition(w, path, ignoreEtag);
    var first := Attempt(w, path, content, pre, script.first);
    if first.result.Ok? || !IsRecoverable(first.result.error) then first
    else if !script.reconnects then first.(result := Err(NoResponse))
    else
      var second := Attempt(first.world, path, content, pre, script.second);
      second.(effects := first.effects + second.effects)
  }

  // ----- deleteFile, for files that were not signed, and getFile

  function DeleteOutcome(w: World, path: Path, script: Script): Outcome {
    var hub1 := Interfere(w.hub, script.first.before);
    var (after1, reply1) := Delete(hub1, path, script.first.fate);
    if reply1.Ok? then Outcome(World(after1, w.etags - {path}), Ok(()), [])
    else if !script.reconnects then Outcome(World(after1, w.etags), Err(NoResponse), [])
    else
      var hub2 := Interfere(after1, script.second.before);
      var (after2, reply2) := Delete(hub2, path, script.second.fate);
      Outcome(World(after2, if reply2.Ok? then w.etags - {path} else w.etags), reply2, [])
  }

  function GetOutcome(w: World, path: Path, leg: Leg): (World, Result<Content, Failure>) {
    var hub := Interfere(w.hub, leg.before);
    match Read(hub, path, leg.fate)
    case Err(failure) => (World(hub, w.etags), Err(failure))
    case Ok((content, None)) => (World(hub, w.etags), Ok(content))
    case Ok((content, Some(etag))) => (World(hub, w.etags[path := etag]), Ok(content))
  }

  // ----- the session object

  class Server {
    var hub: Hub

    constructor (hub: Hub)
      ensures this.hub == hub
    {
      this.hub := hub;
    }
  }

  /** A Storage over an InstanceDataStore: one shared session object. */
  class Storage {
    var etags: map<Path, Etag>
    const server: Server

    constructor (server: Server)
      ensures etags == map[] && this.server == server
    {
      etags := map[];
      this.server := server;
    }

    ghost function State(): World
      reads this, server
    {
      World(server.hub, etags)
    }

    method UploadFn(path: Path, content: Content, newFile: bool, etag: Option<Etag>, ignoreEtag: bool, leg: Leg)
      returns (r: Result<(), Failure>, ghost effects: seq<Effect>)
      modifies this`etags, server
      ensures var o := Attempt(old(State()), path, content, UploadPrecondition(newFile, etag, ignoreEtag), leg);
              State() == o.world && r == o.result && effects == o.effects
    {
      var hub := Interfere(server.hub, leg.before);
      var (after, reply) := Upload(hub, path, content, UploadPrecondition(newFile, etag, ignoreEtag), leg.fate);
      effects := if after == hub then [] else [Effect(hub.Version(path), hub.next)];
      server.hub := after;
      if reply.Err? {
        return Err(reply.error), effects;
      }
      if reply.value.Some? {
        etags := etags[path := reply.value.value];
      }
      r := Ok(());
    }

    method PutFile(path: Path, content: Content, ignoreEtag: bool, script: Script)
      returns (r: Result<(), Failure>, ghost effects: seq<Effect>)
      modifies this`etags, server
      ensures var o := PutOutcome(old(State()), path, content, ignoreEtag, script);
              State() == o.world && r == o.result && effects == o.effects
    {
      hide Attempt, IsRecoverable;
      var etag: Option<Etag> := None;
      var newFile := true;
      if !ignoreEtag {
        if path in etags {
          newFile := false;
          etag := Some(etags[path]);
        }
      }
      assert UploadPrecondition(newFile, etag, ignoreEtag) == PutPrecondition(State(), path, ignoreEtag);
      r, effects := UploadFn(path, content, newFile, etag, ignoreEtag, script.first);
      if r.Err? && IsRecoverable(r.error) {
        if !script.reconnects {
          return Err(NoResponse), effects;
        }
        ghost var more;
        r, more := UploadFn(path, content, newFile, etag, ignoreEtag, script.second);
        effects := effects + more;
      }
    }

    method DeleteFile(path: Path, script: Script) returns (r: Result<(), Failure>)
      modifies this`etags, server
      ensures var o := DeleteOutcome(old(State()), path, script);
              State() == o.world && r == o.result
    {
      hide Delete, Interfere;
      var (after1, reply1) := Delete(Interfere(server.hub, script.first.before), path, script.first.fate);
      server.hub := after1;
      if reply1.Ok? {
        etags := etags - {path};
        return Ok(());
      }
      if !script.reconnects {
        return Err(NoResponse);
      }
      var (after2, reply2) := Delete(Interfere(server.hub, script.second.before), path, script.second.fate);
      server.hub := after2;
      if reply2.Ok? {
        etags := etags - {path};
      }
      r := reply2;
    }

    method GetFile(path: Path, leg: Leg) returns (r: Result<Content, Failure>)
      modifies this`etags, server
      ensures var o := GetOutcome(old(State()), path, leg);
              State() == o.0 && r == o.1
    {
      hide Read, Interfere;
      server.hub := Interfere(server.hub, leg.before);
      var response := Read(server.hub, path, leg.fate);
      if response.Err? {
        return Err(response.error);
      }
      var (content, etag) := response.value;
      if etag.Some? {
        etags := etags[path := etag.value];
      }
      r := Ok(content);
    }
  }

  // ----- no lost update

  /** A write changes the hub, so the effects of an attempt are exactly its writes. */
  lemma AttemptEffect(w: World, path: Path, content: Content, pre: Precondition, leg: Leg)
    ensures var o := Attempt(w, path, content, pre, leg);
            var hub := Interfere(w.hub, leg.before);
            && (leg.fate.Handled? && Holds(hub, path, pre) ==>
                  o.effects == [Effect(hub.Version(path), hub.next)] && o.world.hub == hub.Write(path, content))
            && (!(leg.fate.Handled? && Holds(hub, path, pre)) ==>
                  o.effects == [] && o.world == World(hub, w.etags) && o.result.Err?)
  {
  }

  /**
   With tag checking on, every write of putFile that takes effect replaces exactly the version
   recorded when it was called, or creates the file if none was recorded, whatever other
   clients do in between.
   */
  lemma NoLostUpdate(w: World, path: Path, content: Content, script: Script)
    ensures forall e :: e in PutOutcome(w, path, content, false, script).effects ==> e.replaced == w.Recorded(path)
  {
    hide Attempt, IsRecoverable;
    var pre := PutPrecondition(w, path, false);
    var first := Attempt(w, path, content, pre, script.first);
    AttemptEffect(w, path, content, pre, script.first);
    AttemptEffect(first.world, path, content, pre, script.second);
  }

  /** The run in which both attempts of one putFile take effect. */
  predicate WritesTwice(w: World, path: Path, content: Content, script: Script) {
    var arrival := Interfere(w.hub, script.first.before);
    && path !in w.etags
    && path !in arrival.files
    && script.first.fate.Handled? && script.first.fate.reply.Lost?
    && IsRecoverable(script.first.fate.reply.failure)
    && script.reconnects
    && path !in Interfere(arrival.Write(path, content), script.second.before).files
    && script.second.fate.Handled?
  }

  /**
   At most one attempt takes effect, with one exception: a file created by a first attempt
   whose success was reported as a recoverable error, and deleted by somebody else before the
   second attempt arrives.
   */
  lemma AtMostOneWrite(w: World, path: Path, content: Content, script: Script)
    requires w.hub.Valid()
    ensures var o := PutOutcome(w, path, content, false, script);
            && |o.effects| <= 2
            && (|o.effects| == 2 <==> WritesTwice(w, path, content, script))
            && (|o.effects| == 2 ==> OtherDelete(path) in script.second.before)
  {
    hide Attempt, IsRecoverable, Interfere;
    var pre := PutPrecondition(w, path, false);
    var first := Attempt(w, path, content, pre, script.first);
    var arrival := Interfere(w.hub, script.first.before);
    AttemptEffect(w, path, content, pre, script.first);
    AttemptEffect(first.world, path, content, pre, script.second);
    if first.effects != [] {
      AttemptReply(w, path, content, pre, script.first);
      InterferenceKeepsValid(w.hub, script.first.before);
      if OtherDelete(path) !in script.second.before {
        OnlyDeletionRemoves(first.world.hub, script.second.before, path);
      }
      if path in w.etags {
        InterferenceIsFresh(first.world.hub, script.second.before, path, w.etags[path]);
      }
    }
  }

  lemma AttemptReply(w: World, path: Path, content: Content, pre: Precondition, leg: Leg)
    requires leg.fate.Handled? && Holds(Interfere(w.hub, leg.before), path, pre)
    ensures var o := Attempt(w, path, content, pre, leg);
            && (o.result.Err? <==> leg.fate.reply.Lost?)
            && (o.result.Err? ==> o.result.error == leg.fate.reply.failure)
  {
  }

  /** The exception does happen. */
  lemma WritingTwiceIsPossible()
    ensures var w := World(Hub(map[], 0), map[]);
            var lost := Handled(Lost(Status(409, None)), None);
            var script := Script(Leg([], lost), true, Leg([OtherDelete("f")], Handled(Success(true), None)));
            w.hub.Valid() && |PutOutcome(w, "f", "x", false, script).effects| == 2
  {
  }

  /** A server error ends putFile at once: nothing depends on a second attempt. */
  lemma ServerErrorIsNotRetried(w: World, path: Path, content: Content, ignoreEtag: bool, script: Script, other: Leg)
    requires var first := Attempt(w, path, content, PutPrecondition(w, path, ignoreEtag), script.first);
             first.result.Err? && first.result.error.Status? && 500 <= first.result.error.status <= 599
    ensures PutOutcome(w, path, content, ignoreEtag, script) ==
            Attempt(w, path, content, PutPrecondition(w, path, ignoreEtag), script.first)
    ensures PutOutcome(w, path, content, ignoreEtag, script.(second := other)) ==
            PutOutcome(w, path, content, ignoreEtag, script)
  {
  }

  // ----- runs of a single session

  datatype Call =
    | Get(path: Path, leg: Leg)
    | Put(path: Path, content: Content, ignoreEtag: bool, script: Script)
    | Del(path: Path, script: Script)

  function Perform(w: World, call: Call): World {
    match call
    case Get(path, leg) => GetOutcome(w, path, leg).0
    case Put(path, content, ignoreEtag, script) => PutOutcome(w, path, content, ignoreEtag, script).world
    case Del(path, script) => DeleteOutcome(w, path, script).world
  }

  function Run(w: World, calls: seq<Call>): World {
    if calls == [] then w else Perform(Run(w, calls[..|calls| - 1]), calls[|calls| - 1])
  }

  /** Nobody else acts during the call. */
  predicate Alone(call: Call) {
    match call
    case Get(_, leg) => leg.before == []
    case Put(_, _, _, script) => script.first.before == [] && script.second.before == []
    case Del(_, script) => script.first.before == [] && script.second.before == []
  }

  /** Every path is recorded with its current version, and only existing files are recorded. */
  ghost predicate InSync(w: World) {
    forall p: Path :: w.Recorded(p) == w.hub.Version(p)
  }

  // ----- when a single call keeps the session in sync

  /** The failure that the client sees, when the hub acts on whatever reaches it. */
  function FailureOf(fate: Fate): Option<Failure> {
    match fate
    case NotHandled(failure) => Some(failure)
    case Handled(Lost(failure), _) => Some(failure)
    case Handled(Success(_), _) => None
  }

  predicate Retried(script: Script) {
    var failure := FailureOf(script.first.fate);
    failure.Some? && IsRecoverable(failure.value) && script.reconnects
  }

  /**
   What the fates must be for putFile to leave a session in sync that was: the attempt that
   decides is not acted on, or is reported truthfully. After a first attempt that was acted on
   and reported as a recoverable error only an unchecked second one can make up for it.
   */
  predicate PutSettles(ignoreEtag: bool, script: Script) {
    if !Retried(script) then Truthful(script.first.fate)
    else if script.first.fate.NotHandled? then Truthful(script.second.fate)
    else ignoreEtag && Tells(script.second.fate)
  }

  /** The hub acts, and the client is told so, with the tag. */
  predicate Tells(fate: Fate) {
    fate.Handled? && fate.reply == Success(true)
  }

  /** The hub acts, but the client is told that it failed. */
  predicate LosesSuccess(fate: Fate) {
    fate.Handled? && fate.reply.Lost?
  }

  /** For deleteFile: there is nothing to delete, or the attempt that deletes is reported as a success. */
  predicate DeleteSettles(present: bool, script: Script) {
    present ==>
      if script.first.fate.NotHandled? then script.reconnects ==> !LosesSuccess(script.second.fate)
      else !LosesSuccess(script.first.fate)
  }

  predicate Settles(w: World, call: Call) {
    match call
    case Get(_, _) => true
    case Put(_, _, ignoreEtag, script) => PutSettles(ignoreEtag, script)
    case Del(path, script) => DeleteSettles(path in w.hub.files, script)
  }

  /** All replies report what happened, with tags. */
  predicate Reliable(call: Call) {
    match call
    case Get(_, leg) => Truthful(leg.fate)
    case Put(_, _, _, script) => Truthful(script.first.fate) && Truthful(script.second.fate)
    case Del(_, script) => Truthful(script.first.fate) && Truthful(script.second.fate)
  }

  lemma ReliableCallsSettle(w: World, call: Call)
    requires Reliable(call)
    ensures Settles(w, call)
  {
  }

  /** A call that concerns one path decides about sync by that path alone. */
  lemma SyncAtPath(w: World, after: World, path: Path)
    requires InSync(w)
    requires forall p: Path :: p != path ==>
               after.Recorded(p) == w.Recorded(p) && after.hub.Version(p) == w.hub.Version(p)
    ensures InSync(after) <==> after.Recorded(path) == after.hub.Version(path)
  {
    if after.Recorded(path) == after.hub.Version(path) {
      forall p: Path
        ensures after.Recorded(p) == after.hub.Version(p)
      {
        assert w.Recorded(p) == w.hub.Version(p);
      }
    }
  }

  /** In a session that is in sync the precondition of putFile holds. */
  lemma PreconditionHolds(w: World, path: Path, ignoreEtag: bool)
    requires InSync(w)
    ensures Holds(w.hub, path, PutPrecondition(w, path, ignoreEtag))
  {
    assert w.Recorded(path) == w.hub.Version(path);
  }

  lemma AttemptSyncs(w: World, path: Path, content: Content, pre: Precondition, leg: Leg)
    requires w.hub.Valid() && InSync(w) && leg.before == [] && Holds(w.hub, path, pre)
    ensures var o := Attempt(w, path, content, pre, leg);
            && (InSync(o.world) <==> Truthful(leg.fate))
            && (o.result.Ok? <==> FailureOf(leg.fate).None?)
            && (o.result.Err? ==> o.result.error == FailureOf(leg.fate).value)
            && (leg.fate.NotHandled? ==> o.world == w)
            && (leg.fate.Handled? && o.result.Err? ==> o.world == World(w.hub.Write(path, content), w.etags))
  {
    assert w.Recorded(path) == w.hub.Version(path);
    SyncAtPath(w, Attempt(w, path, content, pre, leg).world, path);
  }

  /** A second attempt, after one that was acted on and reported as an error. */
  lemma SecondAttemptSyncs(w: World, path: Path, content: Content, ignoreEtag: bool, leg: Leg)
    requires w.hub.Valid() && InSync(w) && leg.before == []
    ensures var first := World(w.hub.Write(path, content), w.etags);
            var o := Attempt(first, path, content, PutPrecondition(w, path, ignoreEtag), leg);
            InSync(o.world) <==> ignoreEtag && Tells(leg.fate)
  {
    var first := World(w.hub.Write(path, content), w.etags);
    assert w.Recorded(path) == w.hub.Version(path);
    SyncAtPath(w, Attempt(first, path, content, PutPrecondition(w, path, ignoreEtag), leg).world, path);
  }

  /** putFile keeps a lone session in sync exactly when PutSettles says so. */
  lemma PutSyncsExactly(w: World, path: Path, content: Content, ignoreEtag: bool, script: Script)
    requires w.hub.Valid() && InSync(w) && script.first.before == [] && script.second.before == []
    ensures InSync(PutOutcome(w, path, content, ignoreEtag, script).world) <==> PutSettles(ignoreEtag, script)
  {
    hide Attempt, IsRecoverable, InSync, Truthful, PutPrecondition;
    var pre := PutPrecondition(w, path, ignoreEtag);
    PreconditionHolds(w, path, ignoreEtag);
    AttemptSyncs(w, path, content, pre, script.first);
    if script.first.fate.NotHandled? {
      AttemptSyncs(w, path, content, pre, script.second);
    } else {
      SecondAttemptSyncs(w, path, content, ignoreEtag, script.second);
      LostIsNotTruthful(script.first.fate);
    }
  }

  lemma LostIsNotTruthful(fate: Fate)
    ensures fate.Handled? && FailureOf(fate).Some? ==> !Truthful(fate)
  {
  }

  /** deleteFile keeps a lone session in sync exactly when DeleteSettles says so; else the record outlives the file. */
  lemma DeleteSyncsExactly(w: World, path: Path, script: Script)
    requires InSync(w) && script.first.before == [] && script.second.before == []
    ensures var after := DeleteOutcome(w, path, script).world;
            && (InSync(after) <==> DeleteSettles(path in w.hub.files, script))
            && (!InSync(after) ==>
                  path !in after.hub.files && after.Recorded(path) == w.Recorded(path) && path in w.etags)
  {
    assert w.Recorded(path) == w.hub.Version(path);
    SyncAtPath(w, DeleteOutcome(w, path, script).world, path);
  }

  /** getFile always keeps a lone session in sync, whatever becomes of the request. */
  lemma GetSyncsAlways(w: World, path: Path, leg: Leg)
    requires InSync(w) && leg.before == []
    ensures InSync(GetOutcome(w, path, leg).0)
  {
    assert w.Recorded(path) == w.hub.Version(path);
    SyncAtPath(w, GetOutcome(w, path, leg).0, path);
  }

  lemma CallSyncsExactly(w: World, call: Call)
    requires w.hub.Valid() && InSync(w) && Alone(call)
    ensures InSync(Perform(w, call)) <==> Settles(w, call)
  {
    hide PutOutcome, DeleteOutcome, GetOutcome, InSync, PutSettles, DeleteSettles;
    match call
    case Get(path, leg) => GetSyncsAlways(w, path, leg);
    case Put(path, content, ignoreEtag, script) => PutSyncsExactly(w, path, content, ignoreEtag, script);
    case Del(path, script) => DeleteSyncsExactly(w, path, script);
  }

  // ----- whole runs

  lemma AttemptKeepsValid(w: World, path: Path, content: Content, pre: Precondition, leg: Leg)
    requires w.hub.Valid()
    ensures Attempt(w, path, content, pre, leg).world.hub.Valid()
  {
    hide Interfere;
    InterferenceKeepsValid(w.hub, leg.before);
  }

  lemma DeleteKeepsValid(w: World, path: Path, script: Script)
    requires w.hub.Valid()
    ensures DeleteOutcome(w, path, script).world.hub.Valid()
  {
    hide Interfere;
    InterferenceKeepsValid(w.hub, script.first.before);
    InterferenceKeepsValid(Delete(Interfere(w.hub, script.first.before), path, script.first.fate).0,
                           script.second.before);
  }

  lemma CallKeepsValid(w: World, call: Call)
    requires w.hub.Valid()
    ensures Perform(w, call).hub.Valid()
  {
    hide Attempt, DeleteOutcome, IsRecoverable, Interfere, Read;
    match call
    case Get(path, leg) => InterferenceKeepsValid(w.hub, leg.before);
    case Put(path, content, ignoreEtag, script) =>
      var pre := PutPrecondition(w, path, ignoreEtag);
      AttemptKeepsValid(w, path, content, pre, script.first);
      AttemptKeepsValid(Attempt(w, path, content, pre, script.first).world, path, content, pre, script.second);
    case Del(path, script) => DeleteKeepsValid(w, path, script);
  }

  lemma {:induction false} RunKeepsValid(w: World, calls: seq<Call>)
    requires w.hub.Valid()
    ensures Run(w, calls).hub.Valid()
  {
    hide Perform;
    if calls != [] {
      RunKeepsValid(w, calls[..|calls| - 1]);
      CallKeepsValid(Run(w, calls[..|calls| - 1]), calls[|calls| - 1]);
    }
  }

  /** In sync before and after every call of the run. */
  ghost predicate InSyncThroughout(w: World, calls: seq<Call>) {
    forall i | 0 <= i <= |calls| :: InSync(Run(w, calls[..i]))
  }

  /** Every call settles in the world it finds. */
  predicate AllSettle(w: World, calls: seq<Call>) {
    forall i | 0 <= i < |calls| :: Settles(Run(w, calls[..i]), calls[i])
  }

  lemma ReliableRunsSettle(w: World, calls: seq<Call>)
    requires forall call :: call in calls ==> Reliable(call)
    ensures AllSettle(w, calls)
  {
    hide Run, Settles;
    forall i | 0 <= i < |calls|
      ensures Settles(Run(w, calls[..i]), calls[i])
    {
      ReliableCallsSettle(Run(w, calls[..i]), calls[i]);
    }
  }

  /** In a session that is in sync a write that the hub acts on and reports as a success succeeds. */
  lemma HandledPutSucceeds(w: World, call: Call)
    requires w.hub.Valid() && InSync(w) && Alone(call) && call.Put?
    requires call.script.first.fate.Handled? && call.script.first.fate.reply.Success?
    ensures PutOutcome(w, call.path, call.content, call.ignoreEtag, call.script).result.Ok?
  {
    hide Attempt, IsRecoverable, InSync, PutPrecondition;
    PreconditionHolds(w, call.path, call.ignoreEtag);
    AttemptSyncs(w, call.path, call.content, PutPrecondition(w, call.path, call.ignoreEtag), call.script.first);
  }

  lemma ThroughoutSplits(w: World, calls: seq<Call>)
    requires calls != []
    ensures var init := calls[..|calls| - 1];
            && (InSyncThroughout(w, calls) <==> InSyncThroughout(w, init) && InSync(Run(w, calls)))
            && (AllSettle(w, calls) <==> AllSettle(w, init) && Settles(Run(w, init), calls[|calls| - 1]))
  {
    hide Run, InSync, Settles;
    var n := |calls| - 1;
    var init := calls[..n];
    assert forall i | 0 <= i <= n :: init[..i] == calls[..i];
    assert calls[..n + 1] == calls;
    if InSyncThroughout(w, calls) {
      assert forall i | 0 <= i <= |init| :: InSync(Run(w, calls[..i]));
    }
    if AllSettle(w, init) && Settles(Run(w, init), calls[n]) {
      forall i | 0 <= i < |calls|
        ensures Settles(Run(w, calls[..i]), calls[i])
      {
        if i < n {
          assert init[i] == calls[i] && Settles(Run(w, init[..i]), init[i]);
        }
      }
    }
    if AllSettle(w, calls) {
      assert Settles(Run(w, calls[..n]), calls[n]);
      forall i | 0 <= i < |init|
        ensures Settles(Run(w, init[..i]), init[i])
      {
        assert Settles(Run(w, calls[..i]), calls[i]);
      }
    }
  }

  /**
   A lone session that starts in sync stays in sync throughout a run of reads, writes and
   deletions if and only if every call of it settles. Then the precondition of every further
   write holds, so that a write which the hub acts on and reports as a success succeeds.
   */
  lemma {:induction false} LoneSessionStaysInSync(w: World, calls: seq<Call>)
    requires w.hub.Valid() && InSync(w) && forall call :: call in calls ==> Alone(call)
    ensures InSyncThroughout(w, calls) <==> AllSettle(w, calls)
    ensures AllSettle(w, calls) ==>
              forall path: Path, ignoreEtag: bool ::
                Holds(Run(w, calls).hub, path, PutPrecondition(Run(w, calls), path, ignoreEtag))
    ensures AllSettle(w, calls) ==>
              forall call :: Alone(call) && call.Put? && FailureOf(call.script.first.fate).None? ==>
                PutOutcome(Run(w, calls), call.path, call.content, call.ignoreEtag, call.script).result.Ok?
  {
    hide Perform, Settles, InSync, PutOutcome, PutPrecondition;
    if calls == [] {
      assert calls[..0] == [] && Run(w, []) == w;
    } else {
      var init, last := calls[..|calls| - 1], calls[|calls| - 1];
      assert last in calls && forall call :: call in init ==> call in calls;
      LoneSessionStaysInSync(w, init);
      RunKeepsValid(w, init);
      ThroughoutSplits(w, calls);
      assert InSyncThroughout(w, init) ==> InSync(Run(w, init)) by {
        assert init[..|init|] == init;
      }
      if InSync(Run(w, init)) {
        CallSyncsExactly(Run(w, init), last);
      }
    }
    if AllSettle(w, calls) {
      assert calls[..|calls|] == calls;
      forall path: Path, ignoreEtag: bool
        ensures Holds(Run(w, calls).hub, path, PutPrecondition(Run(w, calls), path, ignoreEtag))
      {
        PreconditionHolds(Run(w, calls), path, ignoreEtag);
      }
      RunKeepsValid(w, calls);
      forall call: Call | Alone(call) && call.Put? && FailureOf(call.script.first.fate).None?
        ensures PutOutcome(Run(w, calls), call.path, call.content, call.ignoreEtag, call.script).result.Ok?
      {
        HandledPutSucceeds(Run(w, calls), call);
      }
    }
  }

  // ----- falling out of sync

  /**
   A checked write that took effect and was not reported as a success with its tag leaves the
   path out of sync: the file has a new version, the record is the old one.
   */
  lemma LostReplyBreaksSync(w: World, path: Path, content: Content, script: Script)
    requires w.hub.Valid() && InSync(w) && script.first.before == [] && script.second.before == []
    requires script.first.fate.Handled? && script.first.fate.reply != Success(true)
    ensures var after := PutOutcome(w, path, content, false, script).world;
            && after.hub.Version(path) == Some(w.hub.next)
            && after.Recorded(path) == w.Recorded(path) != after.hub.Version(path)
  {
    hide IsRecoverable;
    assert w.Recorded(path) == w.hub.Version(path);
  }

  /** Calls that write only under a precondition. */
  predicate Checked(call: Call) {
    call.Put? ==> !call.ignoreEtag
  }

  /**
   A file that the session has recorded and that no longer exists stays out of reach: reads and
   deletions fail without forgetting the tag, and every checked write asks for a version that
   is gone. This holds over all runs, whatever the replies.
   */
  lemma {:induction false} AbsentFileStaysLost(w: World, calls: seq<Call>, path: Path)
    requires path in w.etags && path !in w.hub.files
    requires forall call :: call in calls ==> Alone(call) && Checked(call)
    ensures var after := Run(w, calls);
            path !in after.hub.files && after.Recorded(path) == w.Recorded(path)
  {
    hide Perform;
    if calls != [] {
      var init, last := calls[..|calls| - 1], calls[|calls| - 1];
      assert last in calls && forall call :: call in init ==> call in calls;
      AbsentFileStaysLost(w, init, path);
      CallKeepsLost(Run(w, init), last, path);
    }
  }

  lemma CallKeepsLost(w: World, call: Call, path: Path)
    requires path in w.etags && path !in w.hub.files && Alone(call) && Checked(call)
    ensures path !in Perform(w, call).hub.files && Perform(w, call).Recorded(path) == w.Recorded(path)
  {
    hide IsRecoverable;
  }

  /** So does a file of the session's own whose deletion was acted on and reported as a failure. */
  lemma LostDeletionStaysLost(w: World, path: Path, script: Script, calls: seq<Call>)
    requires InSync(w) && script.first.before == [] && script.second.before == []
    requires !DeleteSettles(path in w.hub.files, script)
    requires forall call :: call in calls ==> Alone(call) && Checked(call)
    ensures var after := Run(DeleteOutcome(w, path, script).world, calls);
            path !in after.hub.files && after.Recorded(path) == w.Recorded(path) && path in w.etags
  {
    hide DeleteOutcome, DeleteSettles, Run;
    DeleteSyncsExactly(w, path, script);
    AbsentFileStaysLost(DeleteOutcome(w, path, script).world, calls, path);
  }

  /** While recorded and actual version differ, no checked write changes the file or the record. */
  lemma StaleWritesFail(w: World, path: Path, content: Content, script: Script)
    requires w.Recorded(path) != w.hub.Version(path)
    requires script.first.before == [] && script.second.before == []
    ensures var o := PutOutcome(w, path, content, false, script);
            o.world == w && o.result.Err? && o.effects == []
  {
  }

  /** A read brings a path back in sync exactly when the file still exists and the reply tells so, with the tag. */
  lemma ReadRestoresSync(w: World, path: Path, leg: Leg)
    requires w.Recorded(path) != w.hub.Version(path) && leg.before == []
    ensures var after := GetOutcome(w, path, leg).0;
            after.Recorded(path) == after.hub.Version(path) <==> path in w.hub.files && Tells(leg.fate)
  {
  }

  // ----- what is read is what was written

  /** The others that act around the call leave the path alone, and the call itself at most reads it. */
  predicate LeavesAlone(call: Call, path: Path) {
    match call
    case Get(_, leg) => AllElsewhere(leg.before, path)
    case Put(p, _, _, script) =>
      p != path && AllElsewhere(script.first.before, path) && AllElsewhere(script.second.before, path)
    case Del(p, script) =>
      p != path && AllElsewhere(script.first.before, path) && AllElsewhere(script.second.before, path)
  }

  predicate AllElsewhere(others: seq<Other>, path: Path) {
    forall o :: o in others ==> o.path != path
  }

  predicate SameFile(a: Hub, b: Hub, path: Path) {
    (path in a.files <==> path in b.files) && (path in a.files ==> a.files[path] == b.files[path])
  }

  lemma {:induction false} InterferenceElsewhere(hub: Hub, others: seq<Other>, path: Path)
    requires AllElsewhere(others, path)
    ensures SameFile(hub, Interfere(hub, others), path)
  {
    if others != [] {
      var init, last := others[..|others| - 1], others[|others| - 1];
      assert last in others && forall o :: o in init ==> o in others;
      InterferenceElsewhere(hub, init, path);
    }
  }

  lemma AttemptElsewhere(w: World, path: Path, content: Content, pre: Precondition, leg: Leg, other: Path)
    requires other != path && AllElsewhere(leg.before, other)
    ensures SameFile(w.hub, Attempt(w, path, content, pre, leg).world.hub, other)
  {
    hide Interfere;
    InterferenceElsewhere(w.hub, leg.before, other);
  }

  lemma DeleteElsewhere(w: World, path: Path, script: Script, other: Path)
    requires other != path && AllElsewhere(script.first.before, other) && AllElsewhere(script.second.before, other)
    ensures SameFile(w.hub, DeleteOutcome(w, path, script).world.hub, other)
  {
    hide Interfere, AllElsewhere;
    InterferenceElsewhere(w.hub, script.first.before, other);
    InterferenceElsewhere(Delete(Interfere(w.hub, script.first.before), path, script.first.fate).0,
                          script.second.before, other);
  }

  lemma CallKeepsOtherFiles(w: World, call: Call, path: Path)
    requires LeavesAlone(call, path)
    ensures SameFile(w.hub, Perform(w, call).hub, path)
  {
    hide Attempt, DeleteOutcome, IsRecoverable, Interfere, Read, AllElsewhere;
    match call
    case Get(_, leg) => InterferenceElsewhere(w.hub, leg.before, path);
    case Put(p, content, ignoreEtag, script) =>
      var pre := PutPrecondition(w, p, ignoreEtag);
      AttemptElsewhere(w, p, content, pre, script.first, path);
      AttemptElsewhere(Attempt(w, p, content, pre, script.first).world, p, content, pre, script.second, path);
    case Del(p, script) => DeleteElsewhere(w, p, script, path);
  }

  /** A file that nobody writes or deletes stays as it is. */
  lemma {:induction false} RunKeepsOtherFiles(w: World, calls: seq<Call>, path: Path)
    requires forall call :: call in calls ==> LeavesAlone(call, path)
    ensures SameFile(w.hub, Run(w, calls).hub, path)
  {
    hide Perform, LeavesAlone;
    if calls != [] {
      var init, last := calls[..|calls| - 1], calls[|calls| - 1];
      assert last in calls && forall call :: call in init ==> call in calls;
      RunKeepsOtherFiles(w, init, path);
      CallKeepsOtherFiles(Run(w, init), last, path);
    }
  }

  lemma AttemptStores(w: World, path: Path, content: Content, pre: Precondition, leg: Leg)
    ensures var o := Attempt(w, path, content, pre, leg);
            o.result.Ok? ==> path in o.world.hub.files && o.world.hub.files[path].content == content
  {
  }

  /** A write that succeeds leaves the file with its content, whatever others did meanwhile. */
  lemma PutStores(w: World, path: Path, content: Content, ignoreEtag: bool, script: Script)
    ensures var o := PutOutcome(w, path, content, ignoreEtag, script);
            o.result.Ok? ==> path in o.world.hub.files && o.world.hub.files[path].content == content
  {
    hide Attempt, IsRecoverable;
    var pre := PutPrecondition(w, path, ignoreEtag);
    AttemptStores(w, path, content, pre, script.first);
    AttemptStores(Attempt(w, path, content, pre, script.first).world, path, content, pre, script.second);
  }

  /** What a read returns: the file's content, if the hub is reached, has the file and the reply arrives. */
  lemma WhatIsRead(w: World, path: Path, leg: Leg)
    requires AllElsewhere(leg.before, path)
    ensures var r := GetOutcome(w, path, leg).1;
            && (r.Ok? <==> path in w.hub.files && leg.fate.Handled? && leg.fate.reply.Success?)
            && (r.Ok? ==> r.value == w.hub.files[path].content)
            && (path !in w.hub.files && leg.fate.Handled? && leg.fate.reply.Success? ==>
                  r == Err(Status(404, leg.fate.refusalStatus)))
  {
    hide Interfere;
    InterferenceElsewhere(w.hub, leg.before, path);
  }

  /**
   What was successfully written is what is read, after any calls and any doings of others that
   concern other files: the read fails only if it does not reach the hub or its reply is lost.
   */
  lemma ReadYourWrites(w: World, path: Path, content: Content, ignoreEtag: bool, script: Script, calls: seq<Call>,
                       leg: Leg)
    requires PutOutcome(w, path, content, ignoreEtag, script).result.Ok?
    requires forall call :: call in calls ==> LeavesAlone(call, path)
    requires AllElsewhere(leg.before, path)
    ensures var r := GetOutcome(Run(PutOutcome(w, path, content, ignoreEtag, script).world, calls), path, leg).1;
            && (r.Ok? <==> leg.fate.Handled? && leg.fate.reply.Success?)
            && (r.Ok? ==> r.value == content)
  {
    hide PutOutcome, Run, GetOutcome, LeavesAlone, AllElsewhere;
    PutStores(w, path, content, ignoreEtag, script);
    var after := PutOutcome(w, path, content, ignoreEtag, script).world;
    RunKeepsOtherFiles(after, calls, path);
    WhatIsRead(Run(after, calls), path, leg);
  }

  lemma DeleteRemoves(w: World, path: Path, script: Script)
    ensures var o := DeleteOutcome(w, path, script);
            o.result.Ok? ==> path !in o.world.hub.files && path !in o.world.etags
  {
    hide Interfere;
  }

  /** What was successfully deleted is not found again, until somebody writes it. */
  lemma DeletedIsNotFound(w: World, path: Path, script: Script, calls: seq<Call>, leg: Leg)
    requires DeleteOutcome(w, path, script).result.Ok?
    requires forall call :: call in calls ==> LeavesAlone(call, path)
    requires AllElsewhere(leg.before, path)
    ensures var r := GetOutcome(Run(DeleteOutcome(w, path, script).world, calls), path, leg).1;
            && r.Err?
            && (leg.fate.Handled? && leg.fate.reply.Success? ==> r == Err(Status(404, leg.fate.refusalStatus)))
  {
    hide DeleteOutcome, Run, GetOutcome, LeavesAlone, AllElsewhere;
    DeleteRemoves(w, path, script);
    var after := DeleteOutcome(w, path, script).world;
    RunKeepsOtherFiles(after, calls, path);
    WhatIsRead(Run(after, calls), path, leg);
  }

  /** An unchecked write that the hub acts on and reports as a success succeeds, whatever versions there are. */
  lemma UncheckedWritesLand(w: World, path: Path, content: Content, script: Script)
    requires script.first.fate.Handled? && script.first.fate.reply.Success?
    ensures var o := PutOutcome(w, path, content, true, script);
            && o.result.Ok?
            && o.world.hub == Interfere(w.hub, script.first.before).Write(path, content)
  {
    hide Interfere, IsRecoverable;
  }
}

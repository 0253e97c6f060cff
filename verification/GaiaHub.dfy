/**
 A storage hub with entity tags (packages/storage/src/hub.ts). Preconditions follow RFC 9110,
 sections 13.1.1 (If-Match) and 13.1.2 (If-None-Match); every write gets a fresh tag.
 */
module GaiaHub {
  import opened Results

  type Path = string

  type Content = seq<char>

  /** Tags are numbered in the order in which the hub issues them. */
  type Etag = nat

  datatype File = File(etag: Etag, content: Content)

  datatype Hub = Hub(files: map<Path, File>, next: Etag) {
    /** Tags in use have been issued. */
    predicate Valid() {
      forall p :: p in files ==> files[p].etag < next
    }

    function Version(path: Path): Option<Etag> {
      if path in files then Some(files[path].etag) else None
    }

    function Write(path: Path, content: Content): Hub {
      Hub(files[path := File(next, content)], next + 1)
    }

    function Remove(path: Path): Hub {
      Hub(files - {path}, next)
    }
  }

  // ----- other clients

  datatype Other =
    | OtherWrite(path: Path, content: Content)
    | OtherDelete(path: Path)

  function Act(hub: Hub, other: Other): Hub {
    match other
    case OtherWrite(path, content) => hub.Write(path, content)
    case OtherDelete(path) => hub.Remove(path)
  }

  function Interfere(hub: Hub, others: seq<Other>): Hub {
    if others == [] then hub else Act(Interfere(hub, others[..|others| - 1]), others[|others| - 1])
  }

  // ----- requests

  datatype Precondition = Unconditional | IfNoneMatchAny | IfMatch(etag: Etag)

  predicate Holds(hub: Hub, path: Path, pre: Precondition) {
    match pre
    case Unconditional => true
    case IfNoneMatchAny => path !in hub.files
    case IfMatch(etag) => hub.Version(path) == Some(etag)
  }

  /** The conditional headers that uploadToGaiaHub chooses. */
  function UploadPrecondition(newFile: bool, etag: Option<Etag>, ignoreEtag: bool): Precondition {
    if ignoreEtag then Unconditional
    else if newFile then IfNoneMatchAny
    else if etag.Some? then IfMatch(etag.value)
    else Unconditional
  }

  /** A status that is not `ok`. */
  type ErrorStatus = s: nat | s < 200 || s >= 300 witness 500

  /** How a request fails for the client; the body of a response may carry a statusCode of its own. */
  datatype Failure =
    | NoResponse
    | Status(status: ErrorStatus, bodyStatus: Option<nat>)

  const PRECONDITION_FAILED: ErrorStatus := 412

  const NOT_FOUND: ErrorStatus := 404

  /** What a success carries back, or a failure reported although the hub did act. */
  datatype Reply = Success(carriesEtag: bool) | Lost(failure: Failure)

  /**
   What becomes of a request: it may never reach the hub's files, or be handled. Then either it is
   carried out and replied to, or refused, with a body that may carry a statusCode too.
   */
  datatype Fate = NotHandled(failure: Failure) | Handled(reply: Reply, refusalStatus: Option<nat>)

  /** The reply is what happened, with the tag. */
  predicate Truthful(fate: Fate) {
    fate.Handled? ==> fate.reply == Success(true)
  }

  function Upload(hub: Hub, path: Path, content: Content, pre: Precondition, fate: Fate)
    : (Hub, Result<Option<Etag>, Failure>)
  {
    match fate
    case NotHandled(failure) => (hub, Err(failure))
    case Handled(reply, refusalStatus) =>
      if !Holds(hub, path, pre) then (hub, Err(Status(PRECONDITION_FAILED, refusalStatus)))
      else
        (hub.Write(path, content),
         match reply
         case Success(carriesEtag) => Ok(if carriesEtag then Some(hub.next) else None)
         case Lost(failure) => Err(failure))
  }

  function Delete(hub: Hub, path: Path, fate: Fate): (Hub, Result<(), Failure>) {
    match fate
    case NotHandled(failure) => (hub, Err(failure))
    case Handled(reply, refusalStatus) =>
      if path !in hub.files then (hub, Err(Status(NOT_FOUND, refusalStatus)))
      else (hub.Remove(path), if reply.Lost? then Err(reply.failure) else Ok(()))
  }

  function Read(hub: Hub, path: Path, fate: Fate): Result<(Content, Option<Etag>), Failure> {
    match fate
    case NotHandled(failure) => Err(failure)
    case Handled(reply, refusalStatus) =>
      if reply.Lost? then Err(reply.failure)
      else if path !in hub.files then Err(Status(NOT_FOUND, refusalStatus))
      else Ok((hub.files[path].content, if reply.carriesEtag then Some(hub.files[path].etag) else None))
  }

  // ----- which failures are retried

  /** The statuses for which getBlockstackErrorFromResponse makes an error with hub details. */
  predicate CarriesHubError(status: nat) {
    status in {401, 402, 403, 404, 409, 412, 413}
  }

  /** isRecoverableGaiaError, on the error made from a failed response. */
  predicate IsRecoverable(failure: Failure) {
    && failure.Status?
    && CarriesHubError(failure.status)
    && var code := if failure.bodyStatus.Some? then failure.bodyStatus.value else failure.status;
       code == 401 || code == 409 || 500 <= code <= 599
  }

  /** A plain server error is never retried: the error made for it carries no status. */
  lemma ServerErrorsAreFinal(failure: Failure)
    requires failure.Status? && failure.bodyStatus.None?
    ensures IsRecoverable(failure) <==> failure.status == 401 || failure.status == 409
  {
  }

  /** A status in the body stands in for that of the response, but only where hub details are made at all. */
  lemma BodyStatusDecides(failure: Failure)
    requires failure.Status? && failure.bodyStatus.Some?
    ensures IsRecoverable(failure) <==>
            && failure.status in {401, 402, 403, 404, 409, 412, 413}
            && (failure.bodyStatus.value in {401, 409} || 500 <= failure.bodyStatus.value < 600)
  {
  }

  // ----- tags are never reused

  lemma {:induction false} InterferenceKeepsValid(hub: Hub, others: seq<Other>)
    requires hub.Valid()
    ensures Interfere(hub, others).Valid() && hub.next <= Interfere(hub, others).next
  {
    if others != [] {
      InterferenceKeepsValid(hub, others[..|others| - 1]);
    }
  }

  /** A tag issued earlier is the current one only if nobody has written since. */
  lemma {:induction false} InterferenceIsFresh(hub: Hub, others: seq<Other>, path: Path, etag: Etag)
    requires hub.Valid() && etag < hub.next
    ensures Interfere(hub, others).Version(path) == Some(etag) ==> hub.Version(path) == Some(etag)
  {
    if others != [] {
      InterferenceKeepsValid(hub, others[..|others| - 1]);
      InterferenceIsFresh(hub, others[..|others| - 1], path, etag);
    }
  }

  /** Only a deletion makes a file absent again. */
  lemma {:induction false} OnlyDeletionRemoves(hub: Hub, others: seq<Other>, path: Path)
    requires path in hub.files && OtherDelete(path) !in others
    ensures path in Interfere(hub, others).files
  {
    if others != [] {
      var init := others[..|others| - 1];
      assert OtherDelete(path) !in init;
      OnlyDeletionRemoves(hub, init, path);
      assert others[|others| - 1] in others;
    }
  }
}

/**
 * The webhook handler `handle`: lowercase the header names, check that a
 * signature is present, obtain the shared secret, compare the signature with
 * the one computed over the raw body, and forward a queued check-run creation
 * to the work queue as one `ActionRequest`.
 *
 * The outside world is an `Environment`: the secret the decrypt call yields
 * (`None` for `undefined`), the keyed hash, the JSON parser (`None` when it
 * throws) and whether the queue accepts the message. `calls` records, in
 * order, the outside calls the handler makes.
 */
module Webhook {
  import opened Wrappers
  import opened Headers
  import opened Signature

  /** The fields of a `check_run` event payload the handler reads. */
  datatype CheckRun = CheckRun(id: int, status: string)
  datatype Owner = Owner(login: string)
  datatype Repository = Repository(name: string, owner: Owner)
  datatype Installation = Installation(id: int)
  datatype CheckRunPayload = CheckRunPayload(
    action: string,
    checkRun: CheckRun,
    repository: Repository,
    installation: Option<Installation>)

  /** The work item sent to the queue. */
  datatype ActionRequest = ActionRequest(
    id: int,
    repositoryName: string,
    repositoryOwner: string,
    eventType: string,
    installationId: int)

  datatype Environment = Environment(
    secret: Option<string>,
    mac: Mac,
    parse: string -> Option<CheckRunPayload>,
    sendSucceeds: bool)

  /** An outside call: the decrypt of the secret, the HMAC of the body, or
      the submission of a work item to the queue. */
  datatype Call = Decrypt | ComputeSignature | Send(request: ActionRequest)

  /** The errors `handle` lets escape: JSON.parse rejecting the body, the
      dereference of a missing `installation`, a failed queue submission. */
  datatype Fault = MalformedPayload | MissingInstallation | SendFailed

  /** The promise `handle` returns: resolved with a status code, or rejected. */
  datatype Outcome = Status(code: int) | Thrown(fault: Fault)

  const SignatureHeader: string := "x-hub-signature"
  const EventHeader: string := "x-github-event"

  function Get(h: HeaderMap, name: string): Option<string> {
    if name in h then Some(h[name]) else None
  }

  /** The signature header is present and truthy: `!signature` rejects both
      an absent header and an empty one. */
  predicate HasSignature(h: HeaderMap)
    ensures HasSignature(h) <==> SignatureHeader in h && |h[SignatureHeader]| > 0
  {
    match Get(h, SignatureHeader)
    case None => false
    case Some(signature) => signature != ""
  }

  /** The signature is present, a secret was obtained, and the signature
      equals the one computed over the raw body under that secret. */
  predicate Verified(h: HeaderMap, payload: string, env: Environment) {
    && HasSignature(h)
    && env.secret.Some?
    && h[SignatureHeader] == SignRequestBody(env.mac, env.secret.value, payload)
  }

  predicate IsCheckRunEvent(h: HeaderMap) {
    Get(h, EventHeader) == Some("check_run")
  }

  /** The routing rule: a `check_run` event whose payload parses, with action
      `created` and status `queued`, all by exact comparison. */
  predicate Routed(h: HeaderMap, payload: string, env: Environment) {
    && IsCheckRunEvent(h)
    && env.parse(payload).Some?
    && env.parse(payload).value.action == "created"
    && env.parse(payload).value.checkRun.status == "queued"
  }

  /** Each field of the work item is taken from the payload. */
  predicate CarriesPayload(r: ActionRequest, p: CheckRunPayload) {
    && r.id == p.checkRun.id
    && r.repositoryName == p.repository.name
    && r.repositoryOwner == p.repository.owner.login
    && r.eventType == "check_run"
    && p.installation.Some?
    && r.installationId == p.installation.value.id
  }

  /** Outside calls happen in the order decrypt, HMAC, send, each at most
      once, and a later one only after the earlier ones. */
  predicate InPipelineOrder(calls: seq<Call>) {
    && |calls| <= 3
    && (|calls| > 0 ==> calls[0] == Decrypt)
    && (|calls| > 1 ==> calls[1] == ComputeSignature)
    && (|calls| > 2 ==> calls[2].Send?)
  }

  /** The work items submitted to the queue. In pipeline order only the
      third call can be a submission. */
  function Submissions(calls: seq<Call>): seq<ActionRequest> {
    if |calls| > 2 && calls[2].Send? then [calls[2].request] else []
  }

  method Handle(headers: HeaderMap, order: seq<string>, payload: string, env: Environment)
    returns (outcome: Outcome, calls: seq<Call>, normalized: HeaderMap)
    requires forall k :: k in order <==> k in headers
    // the caller's header object is left lowercased
    ensures normalized == Normalized(headers, order)
    ensures InPipelineOrder(calls)
    // a missing or empty signature fails before the secret is fetched
    ensures Decrypt in calls <==> HasSignature(normalized)
    ensures ComputeSignature in calls <==> HasSignature(normalized) && env.secret.Some?
    ensures outcome == Status(500) <==> !HasSignature(normalized) || env.secret.None?
    ensures outcome == Status(401)
        <==> HasSignature(normalized) && env.secret.Some? && !Verified(normalized, payload, env)
    // a verified event is either answered with 200 or fails, never 401 or 500
    ensures outcome == Thrown(MalformedPayload)
        <==> Verified(normalized, payload, env) && IsCheckRunEvent(normalized) && env.parse(payload).None?
    ensures outcome == Thrown(MissingInstallation)
        <==> Verified(normalized, payload, env) && Routed(normalized, payload, env)
             && env.parse(payload).value.installation.None?
    ensures outcome == Thrown(SendFailed)
        <==> Verified(normalized, payload, env) && Routed(normalized, payload, env)
             && env.parse(payload).value.installation.Some? && !env.sendSucceeds
    ensures outcome == Status(200)
        <==> Verified(normalized, payload, env)
             && (IsCheckRunEvent(normalized) ==> env.parse(payload).Some?)
             && (Routed(normalized, payload, env)
                 ==> env.parse(payload).value.installation.Some? && env.sendSucceeds)
    // exactly one work item is submitted for a verified, routed event with an installation
    ensures |Submissions(calls)| <= 1
    ensures Submissions(calls) != []
        <==> Verified(normalized, payload, env) && Routed(normalized, payload, env)
             && env.parse(payload).value.installation.Some?
    ensures forall r :: r in Submissions(calls) ==>
              env.parse(payload).Some? && CarriesPayload(r, env.parse(payload).value)
  {
    normalized := LowercaseKeys(headers, order);
    calls := [];

    var signature := Get(normalized, SignatureHeader);
    if signature.None? || signature.value == "" {
      return Status(500), calls, normalized;
    }

    calls := [Decrypt];
    var secret := env.secret;
    if secret.None? {
      return Status(500), calls, normalized;
    }

    calls := [Decrypt, ComputeSignature];
    var calculatedSig := SignRequestBody(env.mac, secret.value, payload);
    if signature.value != calculatedSig {
      return Status(401), calls, normalized;
    }

    var githubEvent := Get(normalized, EventHeader);
    if githubEvent == Some("check_run") {
      var body := env.parse(payload);
      if body.None? {
        return Thrown(MalformedPayload), calls, normalized;
      }
      if body.value.action == "created" && body.value.checkRun.status == "queued" {
        if body.value.installation.None? {
          return Thrown(MissingInstallation), calls, normalized;
        }
        var request := ActionRequest(
          body.value.checkRun.id,
          body.value.repository.name,
          body.value.repository.owner.login,
          githubEvent.value,
          body.value.installation.value.id);
        calls := [Decrypt, ComputeSignature, Send(request)];
        if !env.sendSucceeds {
          return Thrown(SendFailed), calls, normalized;
        }
      }
    }
    outcome := Status(200);
  }
}

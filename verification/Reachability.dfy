/** Whether a published app answers at its origin as the package it was published from. */
module Reachability {
  import opened OutputBounds
  import opened Texts
  import opened Wrappers
  import Json

  datatype Scheme = Http | Https | OtherScheme

  /** `extras` stands for credentials, a query or a fragment. */
  datatype Target = Target(scheme: Scheme, extras: bool, atRoot: bool, loopback: bool)

  /** The chunks are those that arrive; after them the body may break off. */
  datatype Response = Response(
    status: nat, contentType: Text, declared: Option<real>, chunks: Option<seq<Bytes>>, breaksOff: bool)

  /** What the network answers, step by step; absent where it does not. */
  datatype Network = Network(
    target: Option<Target>, addresses: Option<nat>, connects: bool,
    live: Option<Response>, ready: Option<Response>, root: Option<Response>)

  datatype Config = Config(appId: Text, checkpointId: Text)

  /** `TextDecoder` and `toLowerCase`. */
  datatype Host = Host(decode: Bytes -> Text, lower: Text -> Text)

  datatype StepId = Url | Dns | Transport | Liveness | Readiness | AppRoot

  datatype Code =
    | UrlInvalid | InsecurePublicUrl | DnsLookupFailed | TcpConnectFailed | TlsHandshakeFailed | UnexpectedRedirect
    | HttpStatusFailed | BodyTooLarge | ResponseInvalid | IdentityMismatch | PolicyMismatch

  datatype Step = Step(id: StepId, failure: Option<Code>)

  const ORDER := [Url, Dns, Transport, Liveness, Readiness, AppRoot]
  const JSON_TYPE := Literal("application/json")
  const HTML_TYPE := Literal("text/html")
  const DOCTYPE := Literal("<!doctype html")
  const STATUS := Literal("status")
  const APP_ID := Literal("appId")
  const CHECKPOINT_ID := Literal("checkpointId")
  const POLICY := Literal("schemaChangePolicy")
  const RESET_AND_RESEED := Literal("reset-and-reseed")

  predicate Includes(t: Text, part: Text) { exists i :: 0 <= i <= |t| && part <= t[i..] }

  /** A text includes another exactly if that is what is between some beginning and some end of it. */
  lemma {:induction false} IncludesExactly(t: Text, part: Text)
    ensures Includes(t, part) <==> exists before, after :: t == before + part + after
  {
    if i :| 0 <= i <= |t| && part <= t[i..] {
      assert t == t[..i] + part + t[i + |part|..];
    }
    forall before, after | t == before + part + after ensures Includes(t, part) {
      assert t[|before|..] == part + after;
    }
  }

  // ----- each step

  function ValidateOrigin(target: Option<Target>): Option<Code> {
    match target
    case None => Some(UrlInvalid)
    case Some(url) =>
      if url.scheme == OtherScheme || url.extras || !url.atRoot then Some(UrlInvalid)
      else if url.scheme != Https && !url.loopback then Some(InsecurePublicUrl)
      else None
  }

  function LookUp(addresses: Option<nat>): Option<Code> {
    if addresses.None? || addresses.value == 0 then Some(DnsLookupFailed) else None
  }

  function Connect(target: Option<Target>, connects: bool): Option<Code> {
    if connects then None
    else if target.Some? && target.value.scheme == Https then Some(TlsHandshakeFailed)
    else Some(TcpConnectFailed)
  }

  datatype Fetched = Answer(text: Text) | Refused(code: Code)

  /** A response without a body has none that could break off. */
  predicate BrokenOff(r: Response) { r.breaksOff && r.chunks.Some? }

  function Fetch(h: Host, response: Option<Response>, expected: Text): Fetched {
    match response
    case None => Refused(HttpStatusFailed)
    case Some(r) =>
      if 300 <= r.status < 400 then Refused(UnexpectedRedirect)
      else if !(200 <= r.status < 300) then Refused(HttpStatusFailed)
      else if !Includes(h.lower(r.contentType), expected) then Refused(ResponseInvalid)
      else
        match BoundedBody(r.declared, r.chunks)
        case ResponseTooLarge => Refused(BodyTooLarge)
        case Body(bytes) => if BrokenOff(r) then Refused(HttpStatusFailed) else Answer(h.decode(bytes))
  }

  /** A property of the fetched JSON object is the text. */
  predicate Says(members: seq<Json.Member>, key: Text, value: Text) {
    Json.Lookup(members, key) == Some(Json.String(value))
  }

  function CheckLiveness(h: Host, response: Option<Response>): Option<Code> {
    match Fetch(h, response, JSON_TYPE)
    case Refused(code) => Some(code)
    case Answer(text) =>
      match Json.Parse(text)
      case Some(Object(body)) => if Says(body, STATUS, Literal("live")) then None else Some(ResponseInvalid)
      case _ => Some(ResponseInvalid)
  }

  function CheckReadiness(h: Host, config: Config, response: Option<Response>): Option<Code> {
    match Fetch(h, response, JSON_TYPE)
    case Refused(code) => Some(code)
    case Answer(text) =>
      match Json.Parse(text)
      case Some(Object(body)) =>
        if !Says(body, STATUS, Literal("ready")) then Some(ResponseInvalid)
        else if !Says(body, APP_ID, config.appId) || !Says(body, CHECKPOINT_ID, config.checkpointId)
        then Some(IdentityMismatch)
        else if !Says(body, POLICY, RESET_AND_RESEED) then Some(PolicyMismatch)
        else None
      case _ => Some(ResponseInvalid)
  }

  function CheckRoot(h: Host, response: Option<Response>): Option<Code> {
    match Fetch(h, response, HTML_TYPE)
    case Refused(code) => Some(code)
    case Answer(text) => if Includes(h.lower(text), DOCTYPE) then None else Some(ResponseInvalid)
  }

  function Outcome(h: Host, config: Config, network: Network, id: StepId): Option<Code> {
    match id
    case Url => ValidateOrigin(network.target)
    case Dns => LookUp(network.addresses)
    case Transport => Connect(network.target, network.connects)
    case Liveness => CheckLiveness(h, network.live)
    case Readiness => CheckReadiness(h, config, network.ready)
    case AppRoot => CheckRoot(h, network.root)
  }

  // ----- the log

  class ReachabilityCheck {
    var steps: seq<Step>

    constructor ()
      ensures steps == []
    {
      steps := [];
    }

    method RunStep(id: StepId, failure: Option<Code>) returns (ok: bool)
      modifies this
      ensures ok == failure.None? && steps == old(steps) + [Step(id, failure)]
    {
      steps := steps + [Step(id, failure)];
      ok := failure.None?;
    }

    /** The log holds the steps up to the first that failed. */
    method Verify(h: Host, config: Config, network: Network) returns (pass: bool)
      requires steps == []
      modifies this
      ensures IsLog(h, config, network, steps)
      ensures pass <==> |steps| == 6 && forall i :: 0 <= i < 6 ==> steps[i].failure.None?
    {
      var ok := true;
      var i := 0;
      while ok && i < 6
        invariant 0 <= i <= 6 && |steps| == i && (i == 0 ==> ok)
        invariant forall k :: 0 <= k < i ==> steps[k] == Step(ORDER[k], Outcome(h, config, network, ORDER[k]))
        invariant forall k :: 0 <= k < i - 1 ==> steps[k].failure.None?
        invariant i > 0 ==> steps[i - 1].failure.None? == ok
      {
        ok := RunStep(ORDER[i], Outcome(h, config, network, ORDER[i]));
        i := i + 1;
      }
      pass := |steps| == 6 && ok;
    }
  }

  /** The outcomes of the first steps, in order; all but the last passed, and the last failed or is the sixth. */
  ghost predicate IsLog(h: Host, config: Config, network: Network, steps: seq<Step>) {
    && 0 < |steps| <= 6
    && (forall i :: 0 <= i < |steps| ==> steps[i] == Step(ORDER[i], Outcome(h, config, network, ORDER[i])))
    && (forall i :: 0 <= i < |steps| - 1 ==> steps[i].failure.None?)
    && (|steps| == 6 || steps[|steps| - 1].failure.Some?)
  }

  // ----- what each failure tells

  /** No answer, one that is neither a success nor a redirect, or one that breaks off. */
  ghost predicate HasNoAnswer(response: Option<Response>, expected: bool) {
    || response.None?
    || (response.value.status < 200 || response.value.status >= 400)
    || (response.value.status < 300 && expected && response.value.breaksOff && response.value.chunks.Some?
        && !IsTooLarge(response.value))
  }

  ghost predicate IsTooLarge(r: Response) { BoundedBody(r.declared, r.chunks) == ResponseTooLarge }

  ghost predicate HasType(h: Host, response: Option<Response>, expected: Text) {
    response.Some? && Includes(h.lower(response.value.contentType), expected)
  }

  /** Why a fetch is refused: by what is wrong first. */
  lemma {:induction false} RefusalExactly(h: Host, response: Option<Response>, expected: Text, code: Code)
    ensures Fetch(h, response, expected) == Refused(code) <==>
            match code
            case UnexpectedRedirect => response.Some? && 300 <= response.value.status < 400
            case HttpStatusFailed => HasNoAnswer(response, HasType(h, response, expected))
            case ResponseInvalid =>
              response.Some? && 200 <= response.value.status < 300 && !HasType(h, response, expected)
            case BodyTooLarge =>
              response.Some? && 200 <= response.value.status < 300 && HasType(h, response, expected) && IsTooLarge(response.value)
            case _ => false
  {
  }

  /** Which step fails with what, before anything is fetched. */
  lemma {:induction false} ConnectionCodes(network: Network)
    ensures ValidateOrigin(network.target) == Some(UrlInvalid) <==>
            network.target.None? || network.target.value.scheme == OtherScheme || network.target.value.extras
            || !network.target.value.atRoot
    ensures ValidateOrigin(network.target) == Some(InsecurePublicUrl) <==>
            && network.target.Some? && network.target.value.scheme == Http && !network.target.value.extras
            && network.target.value.atRoot && !network.target.value.loopback
    ensures forall code :: ValidateOrigin(network.target) == Some(code) ==> code == UrlInvalid || code == InsecurePublicUrl
    ensures LookUp(network.addresses) ==
            if network.addresses.Some? && network.addresses.value > 0 then None else Some(DnsLookupFailed)
    ensures !network.connects && network.target.Some? && network.target.value.scheme == Https ==>
              Connect(network.target, network.connects) == Some(TlsHandshakeFailed)
    ensures !network.connects && network.target.Some? && network.target.value.scheme == Http ==>
              Connect(network.target, network.connects) == Some(TcpConnectFailed)
  {
  }

  /** A fetched answer that is not of the expected form fails as invalid, except for another identity or policy. */
  ghost predicate IsRecord(text: Text, body: seq<Json.Member>) { Json.Parse(text) == Some(Json.Object(body)) }

  lemma {:induction false} AnswerCodes(h: Host, config: Config, response: Option<Response>, text: Text)
    requires Fetch(h, response, JSON_TYPE) == Answer(text)
    ensures CheckLiveness(h, response) != None ==> CheckLiveness(h, response) == Some(ResponseInvalid)
    ensures CheckReadiness(h, config, response) == Some(IdentityMismatch) <==>
            exists body :: IsRecord(text, body) && Says(body, Literal("status"), Literal("ready")) &&
                           !(Says(body, Literal("appId"), config.appId) && Says(body, Literal("checkpointId"), config.checkpointId))
    ensures CheckReadiness(h, config, response) == Some(PolicyMismatch) <==>
            exists body :: IsRecord(text, body) && Says(body, Literal("status"), Literal("ready")) &&
                           Says(body, Literal("appId"), config.appId) && Says(body, Literal("checkpointId"), config.checkpointId) &&
                           !Says(body, Literal("schemaChangePolicy"), Literal("reset-and-reseed"))
    ensures CheckReadiness(h, config, response) == Some(ResponseInvalid) <==>
            forall body :: IsRecord(text, body) ==> !Says(body, Literal("status"), Literal("ready"))
  {
    hide Json.Parse;
    hide Literal;
    if Json.Parse(text).Some? && Json.Parse(text).value.Object? {
      assert IsRecord(text, Json.Parse(text).value.members);
    }
  }

  /** A refused fetch fails its step with the same code. */
  lemma {:induction false} RefusedCodes(h: Host, config: Config, response: Option<Response>, code: Code)
    ensures Fetch(h, response, Literal("application/json")) == Refused(code) ==>
              CheckLiveness(h, response) == Some(code) && CheckReadiness(h, config, response) == Some(code)
    ensures Fetch(h, response, Literal("text/html")) == Refused(code) ==> CheckRoot(h, response) == Some(code)
    ensures Fetch(h, response, Literal("text/html")).Answer? ==>
              CheckRoot(h, response) ==
              if Includes(h.lower(Fetch(h, response, Literal("text/html")).text), Literal("<!doctype html"))
              then None else Some(ResponseInvalid)
  {
    hide Literal;
    hide Fetch;
  }

  /** The six steps, in order. */
  lemma {:induction false} StepsInOrder(h: Host, config: Config, network: Network)
    ensures |ORDER| == 6
    ensures Outcome(h, config, network, ORDER[0]) == ValidateOrigin(network.target)
    ensures Outcome(h, config, network, ORDER[1]) == LookUp(network.addresses)
    ensures Outcome(h, config, network, ORDER[2]) == Connect(network.target, network.connects)
    ensures Outcome(h, config, network, ORDER[3]) == CheckLiveness(h, network.live)
    ensures Outcome(h, config, network, ORDER[4]) == CheckReadiness(h, config, network.ready)
    ensures Outcome(h, config, network, ORDER[5]) == CheckRoot(h, network.root)
  {
    hide CheckLiveness;
    hide CheckReadiness;
    hide CheckRoot;
  }

  // ----- what a check that passed has seen

  /** A response without redirect, of the expected type, whose whole body arrives within the limit. */
  ghost predicate Answered(h: Host, response: Option<Response>, expected: Text, text: Text) {
    && response.Some? && 200 <= response.value.status < 300
    && Includes(h.lower(response.value.contentType), expected)
    && exists bytes :: Whole(response.value, bytes) && text == h.decode(bytes)
  }

  ghost predicate Whole(r: Response, bytes: Bytes) {
    BoundedBody(r.declared, r.chunks) == Body(bytes) && |bytes| <= MAX_RESPONSE_BYTES && !BrokenOff(r)
  }

  lemma {:induction false} AnsweredExactly(h: Host, response: Option<Response>, expected: Text, text: Text)
    ensures Answered(h, response, expected, text) <==> Fetch(h, response, expected) == Answer(text)
  {
    if Fetch(h, response, expected) == Answer(text) {
      assert Whole(response.value, BoundedBody(response.value.declared, response.value.chunks).bytes);
    }
  }

  ghost predicate Reaches(network: Network) {
    && network.target.Some?
    && (network.target.value.scheme == Https || (network.target.value.scheme == Http && network.target.value.loopback))
    && !network.target.value.extras && network.target.value.atRoot
    && network.addresses.Some? && network.addresses.value > 0 && network.connects
  }

  ghost predicate ReportsLive(h: Host, network: Network) {
    exists text, body :: Answered(h, network.live, JSON_TYPE, text) && Json.Parse(text) == Some(Json.Object(body))
                         && Says(body, STATUS, Literal("live"))
  }

  /** The service reports itself ready as this very app, checkpoint and policy. */
  ghost predicate ReportsReady(h: Host, config: Config, network: Network) {
    exists text, body :: Answered(h, network.ready, JSON_TYPE, text) && Json.Parse(text) == Some(Json.Object(body))
                         && Says(body, STATUS, Literal("ready")) && Says(body, APP_ID, config.appId)
                         && Says(body, CHECKPOINT_ID, config.checkpointId) && Says(body, POLICY, RESET_AND_RESEED)
  }

  ghost predicate ServesPage(h: Host, network: Network) {
    exists text :: Answered(h, network.root, HTML_TYPE, text) && Includes(h.lower(text), DOCTYPE)
  }

  lemma {:induction false} LiveExactly(h: Host, network: Network)
    ensures CheckLiveness(h, network.live) == None <==> ReportsLive(h, network)
  {
    hide Answered;
    forall text ensures Answered(h, network.live, JSON_TYPE, text) <==> Fetch(h, network.live, JSON_TYPE) == Answer(text) {
      AnsweredExactly(h, network.live, JSON_TYPE, text);
    }
  }

  lemma {:induction false} ReadyExactly(h: Host, config: Config, network: Network)
    ensures CheckReadiness(h, config, network.ready) == None <==> ReportsReady(h, config, network)
  {
    hide Answered;
    forall text ensures Answered(h, network.ready, JSON_TYPE, text) <==> Fetch(h, network.ready, JSON_TYPE) == Answer(text) {
      AnsweredExactly(h, network.ready, JSON_TYPE, text);
    }
  }

  lemma {:induction false} PageExactly(h: Host, network: Network)
    ensures CheckRoot(h, network.root) == None <==> ServesPage(h, network)
  {
    hide Answered;
    forall text ensures Answered(h, network.root, HTML_TYPE, text) <==> Fetch(h, network.root, HTML_TYPE) == Answer(text) {
      AnsweredExactly(h, network.root, HTML_TYPE, text);
    }
  }

  /**
   A check passes exactly if the origin is secure or local and can be connected to,
   and the service answers live, ready as this very app, and with a page, each
   without a redirect and within the limit. Otherwise the log ends with the first
   step that failed, and says nothing of the later ones.
   */
  lemma {:induction false} PassExactly(h: Host, config: Config, network: Network, steps: seq<Step>)
    requires IsLog(h, config, network, steps)
    ensures (|steps| == 6 && forall i :: 0 <= i < 6 ==> steps[i].failure.None?) <==>
            Reaches(network) && ReportsLive(h, network) && ReportsReady(h, config, network) && ServesPage(h, network)
  {
    hide CheckLiveness;
    hide CheckReadiness;
    hide CheckRoot;
    hide ReportsLive;
    hide ReportsReady;
    hide ServesPage;
    LiveExactly(h, network);
    ReadyExactly(h, config, network);
    PageExactly(h, network);
    OutcomesInOrder(h, config, network);
    var last := |steps| - 1;
    assert steps[last] == Step(ORDER[last], Outcome(h, config, network, ORDER[last]));
    assert forall i :: 0 <= i < |steps| ==> steps[i].failure == Outcome(h, config, network, ORDER[i]);
  }

  lemma {:induction false} OutcomesInOrder(h: Host, config: Config, network: Network)
    ensures (forall i :: 0 <= i < 6 ==> Outcome(h, config, network, ORDER[i]).None?) <==>
            && Reaches(network) && CheckLiveness(h, network.live) == None
            && CheckReadiness(h, config, network.ready) == None && CheckRoot(h, network.root) == None
  {
    hide CheckLiveness;
    hide CheckReadiness;
    hide CheckRoot;
    assert ORDER[0] == Url && ORDER[1] == Dns && ORDER[2] == Transport;
    assert ORDER[3] == Liveness && ORDER[4] == Readiness && ORDER[5] == AppRoot;
    if forall i :: 0 <= i < 6 ==> Outcome(h, config, network, ORDER[i]).None? {
      assert Outcome(h, config, network, ORDER[0]).None? && Outcome(h, config, network, ORDER[1]).None?;
      assert Outcome(h, config, network, ORDER[2]).None? && Outcome(h, config, network, ORDER[3]).None?;
      assert Outcome(h, config, network, ORDER[4]).None? && Outcome(h, config, network, ORDER[5]).None?;
    }
  }
}

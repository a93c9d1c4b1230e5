/** The request handler of the NSM proxy (nsm.go): two front ends, one backend. */
module NsmProtocol {
  import opened Text
  import opened Hex

  const ID_MAX_SIZE := 64

  // --------------------------------------------------------------------- backend

  datatype Call = Attest(publicKey: seq<byte>, nonce: Option<seq<byte>>, userData: Option<seq<byte>>) | Random

  datatype Reply = Data(data: seq<byte>) | Failure(reason: string)

  /** A backend of any kind, with or without state: its reply may depend on every call
      it has received before. */
  type Backend = (seq<Call>, Call) -> Reply

  // -------------------------------------------------------------------- requests

  /** A decoded JSON request; absent fields are empty. */
  datatype Request = Request(id: string, verb: string, publicKey: string, nonce: string, userData: string)

  datatype Decision = Ask(call: Call) | Refuse(code: string)

  datatype Field = Value(bytes: seq<byte>) | Bad(code: string)

  datatype OptionalField = Optional(bytes: Option<seq<byte>>) | BadOptional(code: string)

  function DecodeRequiredHex(s: string, missingCode: string): (r: Field)
    ensures r.Bad? ==> r.code == missingCode || r.code == "invalid_hex"
  {
    if s == "" then Bad(missingCode)
    else match DecodeHex(s)
      case None => Bad("invalid_hex")
      case Some(b) => if b == [] then Bad(missingCode) else Value(b)
  }

  function DecodeOptionalHex(s: string): (r: OptionalField)
    ensures r.BadOptional? ==> r.code == "invalid_hex"
  {
    if s == "" then Optional(None)
    else match DecodeHex(s)
      case None => BadOptional("invalid_hex")
      case Some(b) => Optional(Some(b))
  }

  function DecodeOptionalLegacyHex(s: string): (r: OptionalField)
    ensures r.BadOptional? ==> r.code == "invalid_hex"
  {
    if s == "-" then Optional(None) else DecodeOptionalHex(s)
  }

  predicate IdChar(c: char) {
    'a' <= c <= 'z' || 'A' <= c <= 'Z' || '0' <= c <= '9' || c == '.' || c == '_' || c == ':' || c == '-'
  }

  predicate ValidNsmID(id: string) {
    1 <= |id| <= ID_MAX_SIZE && forall c :: c in id ==> IdChar(c)
  }

  predicate CodeChar(c: char) {
    'a' <= c <= 'z' || 'A' <= c <= 'Z' || '0' <= c <= '9' || c == '_' || c == '-' || c == '.'
  }

  predicate ValidCode(code: string) {
    code != "" && forall c :: c in code ==> CodeChar(c)
  }

  /** The alphabets of ids and of plain codes, and the length of ids. */
  lemma IdAndCodeAlphabets(c: char, id: string)
    ensures IdChar(c) <==> c in SMALL_LETTERS || c in CAPITALS || c in DIGITS || c in "._:-"
    ensures CodeChar(c) <==> c in SMALL_LETTERS || c in CAPITALS || c in DIGITS || c in "_-."
    ensures ValidNsmID(id) <==> 1 <= |id| <= 64 && forall x :: x in id ==> IdChar(x)
  {
    IsSmall(c);
    IsCapital(c);
    IsDigitCharacter(c);
    hide SMALL_LETTERS, CAPITALS, DIGITS;
  }

  /** The codes the handler itself writes. */
  lemma OwnCodes()
    ensures ValidCode("missing_public_key") && ValidCode("invalid_hex") && ValidCode("invalid_request")
    ensures ValidCode("unknown_method") && ValidCode("invalid_json") && ValidCode("invalid_id")
    ensures ValidCode("empty_request") && ValidCode("line_too_large") && ValidCode("backend_error")
  {
    FieldCodes();
    RequestCodes();
    LineCodes();
    hide ValidCode;
  }

  lemma FieldCodes()
    ensures ValidCode("missing_public_key") && ValidCode("invalid_hex") && ValidCode("invalid_request")
  {
  }

  lemma RequestCodes()
    ensures ValidCode("unknown_method") && ValidCode("invalid_json") && ValidCode("invalid_id")
  {
  }

  lemma LineCodes()
    ensures ValidCode("empty_request") && ValidCode("line_too_large") && ValidCode("backend_error")
  {
  }

  /** A backend reason is passed on only when it is a plain code. */
  function ProtocolError(reason: string): (code: string)
    ensures ValidCode(code)
    ensures ValidCode(reason) ==> code == reason
    ensures !ValidCode(reason) ==> code == "backend_error"
  {
    if reason == "" then "backend_error"
    else if exists c :: c in reason && !CodeChar(c) then "backend_error"
    else reason
  }

  // ------------------------------------------------------------------- responses

  datatype Outcome = Success(data: seq<byte>) | Failed(code: string)

  /** A response, and the form of line it is written in. */
  datatype Response = Response(json: bool, id: string, outcome: Outcome)

  /** An outcome tells the client what the backend replied: its bytes, or its reason where
      that is a plain code and `backend_error` where it is not. */
  predicate Delivers(reply: Reply, outcome: Outcome) {
    match reply
    case Data(data) => outcome == Success(data)
    case Failure(reason) =>
      outcome.Failed? && (if ValidCode(reason) then outcome.code == reason else outcome.code == "backend_error")
  }

  predicate WellFormed(r: Response) {
    && (ValidNsmID(r.id) || (r.json && r.id == ""))
    && (r.outcome.Failed? ==> ValidCode(r.outcome.code))
  }

  // ------------------------------------------------------------------ front ends

  function DecideAttestation(publicKey: Field, nonce: OptionalField, userData: OptionalField): (d: Decision)
    ensures d.Ask? <==> publicKey.Value? && nonce.Optional? && userData.Optional?
    ensures d.Ask? ==> d.call == Attest(publicKey.bytes, nonce.bytes, userData.bytes)
    ensures d.Refuse? ==> d.code == (if publicKey.Bad? then publicKey.code else
      if nonce.BadOptional? then nonce.code else if userData.BadOptional? then userData.code else "")
  {
    match publicKey
    case Bad(code) => Refuse(code)
    case Value(pk) =>
      match nonce
      case BadOptional(code) => Refuse(code)
      case Optional(n) =>
        match userData
        case BadOptional(code) => Refuse(code)
        case Optional(u) => Ask(Attest(pk, n, u))
  }

  function DecideJSON(req: Request): (d: Decision)
    ensures d.Refuse? ==> ValidCode(d.code)
  {
    OwnCodes();
    hide ValidCode, DecodeRequiredHex, DecodeOptionalHex, DecideAttestation;
    if req.verb == "ATT" then
      DecideAttestation(DecodeRequiredHex(req.publicKey, "missing_public_key"),
        DecodeOptionalHex(req.nonce), DecodeOptionalHex(req.userData))
    else if req.verb == "RND" then
      if req.publicKey != "" || req.nonce != "" || req.userData != "" then Refuse("invalid_request")
      else Ask(Random)
    else Refuse("unknown_method")
  }

  /** The words after a valid id. */
  function DecideLegacy(words: seq<string>): (d: Decision)
    ensures d.Refuse? ==> ValidCode(d.code)
  {
    OwnCodes();
    hide ValidCode, DecodeRequiredHex, DecodeOptionalLegacyHex, DecideAttestation;
    if words == [] then Refuse("invalid_request")
    else if words[0] == "ATT" then
      if |words| == 1 then Refuse("missing_public_key")
      else if |words| != 2 && |words| != 4 then Refuse("invalid_request")
      else
        DecideAttestation(DecodeRequiredHex(words[1], "missing_public_key"),
          if |words| == 4 then DecodeOptionalLegacyHex(words[2]) else Optional(None),
          if |words| == 4 then DecodeOptionalLegacyHex(words[3]) else Optional(None))
    else if words[0] == "RND" then
      if |words| != 1 then Refuse("invalid_request") else Ask(Random)
    else Refuse("unknown_method")
  }

  /** Carries a decision out: at most one backend call, and its outcome. */
  function Perform(backend: Backend, calls: seq<Call>, d: Decision): (r: (Outcome, seq<Call>))
    requires d.Refuse? ==> ValidCode(d.code)
    ensures r.0.Failed? ==> ValidCode(r.0.code)
    ensures d.Refuse? ==> r == (Failed(d.code), calls)
    ensures d.Ask? ==> r.1 == calls + [d.call] && Delivers(backend(calls, d.call), r.0)
  {
    hide ValidCode;
    match d
    case Refuse(code) => (Failed(code), calls)
    case Ask(call) =>
      match backend(calls, call)
      case Data(data) => (Success(data), calls + [call])
      case Failure(reason) => (Failed(ProtocolError(reason)), calls + [call])
  }

  /** Either the request was refused without asking the backend, or the backend was asked
      once, after all calls before, and the outcome is its reply. */
  ghost predicate OneCallAtMost(backend: Backend, calls: seq<Call>, outcome: Outcome, after: seq<Call>) {
    || (after == calls && outcome.Failed?)
    || (exists call :: after == calls + [call] && Delivers(backend(calls, call), outcome))
  }

  /** A JSON line once decoded; `None` when it did not decode. */
  function AnswerJSON(backend: Backend, calls: seq<Call>, req: Option<Request>): (r: (Response, seq<Call>))
    ensures WellFormed(r.0) && r.0.json
    ensures OneCallAtMost(backend, calls, r.0.outcome, r.1)
  {
    OwnCodes();
    hide ValidCode, ValidNsmID, DecideJSON, Perform, Delivers;
    match req
    case None => (Response(true, "", Failed("invalid_json")), calls)
    case Some(q) =>
      if !ValidNsmID(q.id) then (Response(true, "", Failed("invalid_id")), calls)
      else
        var (outcome, after) := Perform(backend, calls, DecideJSON(q));
        (Response(true, q.id, outcome), after)
  }

  function AnswerLegacy(backend: Backend, calls: seq<Call>, trimmed: string): (r: (Response, seq<Call>))
    ensures WellFormed(r.0) && !r.0.json
    ensures OneCallAtMost(backend, calls, r.0.outcome, r.1)
  {
    OwnCodes();
    ZeroIsValid();
    hide ValidCode, ValidNsmID, DecideLegacy, Perform, Fields, Delivers;
    var parts := Fields(trimmed);
    var id := if parts == [] then "0" else parts[0];
    if !ValidNsmID(id) then (Response(false, "0", Failed("invalid_id")), calls)
    else
      var words := if parts == [] then [] else parts[1..];
      var (outcome, after) := Perform(backend, calls, DecideLegacy(words));
      (Response(false, id, outcome), after)
  }

  lemma ZeroIsValid()
    ensures ValidNsmID("0")
  {
  }

  /** How a line is dispatched: by the first character left after trimming. */
  predicate LooksJSON(line: string) {
    var trimmed := TrimSpace(line);
    trimmed != "" && trimmed[0] == '{'
  }

  /** The answer to one line and the calls made so far. `decode` stands for the JSON
      decoder of the library. */
  function Answer(backend: Backend, decode: string -> Option<Request>, calls: seq<Call>, line: string)
    : (r: (Response, seq<Call>))
    ensures WellFormed(r.0)
    ensures r.0.json <==> LooksJSON(line)
    ensures OneCallAtMost(backend, calls, r.0.outcome, r.1)
  {
    OwnCodes();
    ZeroIsValid();
    hide TrimSpace, ValidCode, ValidNsmID, AnswerJSON, AnswerLegacy, Delivers;
    var trimmed := TrimSpace(line);
    if trimmed == "" then (Response(false, "0", Failed("empty_request")), calls)
    else if trimmed[0] == '{' then AnswerJSON(backend, calls, decode(trimmed))
    else AnswerLegacy(backend, calls, trimmed)
  }

  // ---------------------------------------------------------- the front ends agree

  /** The legacy line for a request, with an absent field written `-`. */
  function LegacyWords(req: Request): (words: seq<string>)
    ensures |words| >= 2 && words[0] == req.id
  {
    if req.verb == "ATT" then
      [req.id, "ATT", req.publicKey, Dashed(req.nonce), Dashed(req.userData)]
    else [req.id, req.verb]
  }

  function Dashed(s: string): string {
    if s == "" then "-" else s
  }

  predicate NoSpace(s: string) {
    forall c :: c in s ==> c !in SPACE
  }

  /** A request that a legacy line can carry. */
  predicate Expressible(req: Request) {
    && ValidNsmID(req.id)
    && IsToken(req.verb)
    && NoSpace(req.publicKey) && NoSpace(req.nonce) && NoSpace(req.userData)
    && (req.verb == "ATT" ==> req.publicKey != "")
    && (req.verb == "RND" ==> req.publicKey == req.nonce == req.userData == "")
  }

  predicate HexOrAbsent(s: string) {
    s == "" || s == "-" || DecodeHex(s).Some?
  }

  /** The requests the two front ends read differently: a literal `-` is bad hex in a
      JSON field and an absent field on a legacy line. */
  predicate DashMatters(req: Request) {
    && req.verb == "ATT"
    && (req.nonce == "-" || req.userData == "-")
    && DecodeHex(req.publicKey).Some? && HexOrAbsent(req.nonce) && HexOrAbsent(req.userData)
  }

  lemma IdIsToken(id: string)
    requires ValidNsmID(id)
    ensures IsToken(id) && id[0] != '{'
  {
    assert id[0] in id;
  }

  /** Tokenising a legacy line gives its words back and dispatches to the legacy side. */
  lemma LegacyLineReads(backend: Backend, decode: string -> Option<Request>, calls: seq<Call>, words: seq<string>)
    requires |words| >= 1 && ValidNsmID(words[0])
    requires forall k :: 0 <= k < |words| ==> IsToken(words[k])
    ensures var (outcome, after) := Perform(backend, calls, DecideLegacy(words[1..]));
            Answer(backend, decode, calls, Join(words, ' ')) == (Response(false, words[0], outcome), after)
  {
    hide TrimSpace, Fields, DecideLegacy, Perform, ValidNsmID, Join;
    var line := Join(words, ' ');
    JoinIsTight(words);
    TrimSpaceOfTight(line);
    FieldsOfJoin(words);
    IdIsToken(words[0]);
  }

  lemma DashIsNotHex()
    ensures DecodeHex("-") == None
  {
  }

  /** The two front ends take the same decision exactly when no `-` stands for a field
      that would otherwise have been accepted. White space is ASCII here: a field holding
      another Unicode space is bad hex in JSON and splits a legacy line. */
  lemma DecisionsAgree(req: Request)
    requires Expressible(req)
    ensures DecideJSON(req) == DecideLegacy(LegacyWords(req)[1..]) <==> !DashMatters(req)
  {
    hide DecodeHex;
    DashIsNotHex();
    var w := LegacyWords(req)[1..];
    if req.verb == "ATT" {
      assert w == ["ATT", req.publicKey, Dashed(req.nonce), Dashed(req.userData)];
    } else {
      assert w == [req.verb];
    }
  }

  /** For every request a legacy line can carry and every backend, the legacy line and
      the JSON record get the same outcome from the same backend call, or the same error
      code, unless a literal `-` matters. */
  lemma FrontEndsAgree(backend: Backend, decode: string -> Option<Request>, calls: seq<Call>, req: Request)
    requires Expressible(req) && !DashMatters(req)
    ensures var (legacy, after) := Answer(backend, decode, calls, Join(LegacyWords(req), ' '));
            !legacy.json && AnswerJSON(backend, calls, Some(req)) == (legacy.(json := true), after)
    ensures req.verb == "ATT" && req.nonce == "" && req.userData == "" ==>
              Answer(backend, decode, calls, Join([req.id, "ATT", req.publicKey], ' '))
                == Answer(backend, decode, calls, Join(LegacyWords(req), ' '))
  {
    hide DecodeHex, Fields, TrimSpace, Join, DashMatters, DecideAttestation, Answer, Perform;
    DecisionsAgree(req);
    IdIsToken(req.id);
    LegacyLineReads(backend, decode, calls, LegacyWords(req));
    if req.verb == "ATT" {
      var short := [req.id, "ATT", req.publicKey];
      LegacyLineReads(backend, decode, calls, short);
      if req.nonce == "" && req.userData == "" {
        assert short[1..] == ["ATT", req.publicKey];
        assert LegacyWords(req)[1..] == ["ATT", req.publicKey, "-", "-"];
      }
    }
  }
}

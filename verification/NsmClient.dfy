/** The NSM protocol end to end (nsm.go): what each line asks of the backend, what it gets,
    and what a client reads back, over a single line and over a whole session. */
module NsmClient {
  import opened Text
  import opened Hex
  import opened NsmProtocol
  import opened NsmWire
  import opened NsmFraming
  import opened NsmService

  // ------------------------------------------------------------ what a client is owed

  /** Text of an even number of hexadecimal digits, in either case. */
  predicate HexText(s: string) {
    |s| % 2 == 0 && forall c :: c in s ==> DigitValue(c).Some?
  }

  /** The field a text stands for: absent when empty, else the bytes whose hexadecimal form
      is that text in lower case. */
  predicate Carries(field: Option<seq<byte>>, text: string) {
    if text == "" then field == None else field.Some? && EncodeHex(field.value) == ToLower(text)
  }

  /** The backend call that asks to attest the bytes of these three texts. */
  predicate Attests(call: Call, publicKey: string, nonce: string, userData: string) {
    && call.Attest? && publicKey != ""
    && Carries(Some(call.publicKey), publicKey) && Carries(call.nonce, nonce) && Carries(call.userData, userData)
  }

  type Answered = (Response, seq<Call>)

  predicate Refused(a: Answered, calls: seq<Call>, json: bool, id: string, code: string) {
    a == (Response(json, id, Failed(code)), calls)
  }

  /** The backend was asked exactly this, once, and the client is told its reply. */
  predicate Served(a: Answered, backend: Backend, calls: seq<Call>, json: bool, id: string, call: Call) {
    && a.1 == calls + [call]
    && a.0.json == json && a.0.id == id && Delivers(backend(calls, call), a.0.outcome)
  }

  ghost predicate AttestationAnswered(a: Answered, backend: Backend, calls: seq<Call>, json: bool, id: string,
    publicKey: string, nonce: string, userData: string)
  {
    if publicKey == "" then Refused(a, calls, json, id, "missing_public_key")
    else if HexText(publicKey) && HexText(nonce) && HexText(userData) then
      exists call :: Attests(call, publicKey, nonce, userData) && Served(a, backend, calls, json, id, call)
    else Refused(a, calls, json, id, "invalid_hex")
  }

  // -------------------------------------------------------------------- decisions

  lemma HexDecodes(s: string)
    ensures DecodeHex(s).Some? <==> HexText(s)
    ensures HexText(s) && s != "" ==> DecodeHex(s).value != [] && Carries(DecodeHex(s), s)
  {
    hide DecodeHex, DigitValue, ToLower, EncodeHex;
    EncodeOfDecode(s);
  }

  lemma AttestationDecided(publicKey: string, nonce: string, userData: string)
    ensures var d := DecideAttestation(DecodeRequiredHex(publicKey, "missing_public_key"),
              DecodeOptionalHex(nonce), DecodeOptionalHex(userData));
            if publicKey == "" then d == Refuse("missing_public_key")
            else if HexText(publicKey) && HexText(nonce) && HexText(userData) then
              d.Ask? && Attests(d.call, publicKey, nonce, userData)
            else d == Refuse("invalid_hex")
  {
    hide DecodeHex, HexText, EncodeHex, ToLower;
    HexDecodes(publicKey);
    HexDecodes(nonce);
    HexDecodes(userData);
    EmptyIsHex();
  }

  lemma EmptyIsHex()
    ensures HexText("")
  {
  }

  lemma Performed(backend: Backend, calls: seq<Call>, d: Decision, json: bool, id: string)
    requires d.Refuse? ==> ValidCode(d.code)
    ensures var (outcome, after) := Perform(backend, calls, d);
            var a := (Response(json, id, outcome), after);
            match d
            case Ask(call) => Served(a, backend, calls, json, id, call)
            case Refuse(code) => Refused(a, calls, json, id, code)
  {
    hide Perform, ValidCode, Delivers;
  }

  lemma AttestationPerformed(backend: Backend, calls: seq<Call>, d: Decision, json: bool, id: string,
    publicKey: string, nonce: string, userData: string)
    requires d == DecideAttestation(DecodeRequiredHex(publicKey, "missing_public_key"),
               DecodeOptionalHex(nonce), DecodeOptionalHex(userData))
    requires d.Refuse? ==> ValidCode(d.code)
    ensures var (outcome, after) := Perform(backend, calls, d);
            AttestationAnswered((Response(json, id, outcome), after), backend, calls, json, id, publicKey, nonce, userData)
  {
    hide Perform, ValidCode, Delivers, HexText, Attests, Served, Refused, DecideAttestation, DecodeRequiredHex,
      DecodeOptionalHex;
    AttestationDecided(publicKey, nonce, userData);
    Performed(backend, calls, d, json, id);
  }

  // ------------------------------------------------------------------ JSON records

  /** Every decoded request with a valid id, exactly: an attestation request is served with
      the bytes of its fields or refused for its key or for bad hex, a random request is
      served unless it has fields, and no other verb is known. */
  lemma JSONRequestExactly(backend: Backend, decode: Decoder, calls: seq<Call>, line: string, q: Request)
    requires LooksJSON(line) && decode(TrimSpace(line)) == Some(q) && ValidNsmID(q.id)
    ensures var a := Answer(backend, decode, calls, line);
            if q.verb == "ATT" then
              AttestationAnswered(a, backend, calls, true, q.id, q.publicKey, q.nonce, q.userData)
            else if q.verb == "RND" then
              if q.publicKey == "" && q.nonce == "" && q.userData == "" then Served(a, backend, calls, true, q.id, Random)
              else Refused(a, calls, true, q.id, "invalid_request")
            else Refused(a, calls, true, q.id, "unknown_method")
  {
    hide TrimSpace, ValidNsmID, ValidCode, Perform, DecideAttestation, DecodeRequiredHex, DecodeOptionalHex,
      AttestationAnswered, Served, Refused;
    Performed(backend, calls, DecideJSON(q), true, q.id);
    if q.verb == "ATT" {
      AttestationPerformed(backend, calls, DecideJSON(q), true, q.id, q.publicKey, q.nonce, q.userData);
    }
  }

  // ------------------------------------------------------------------ legacy lines

  /** A literal dash stands for an absent optional field. */
  function Undashed(word: string): string {
    if word == "-" then "" else word
  }

  lemma LegacyFieldRead(word: string)
    ensures DecodeOptionalLegacyHex(word) == DecodeOptionalHex(Undashed(word))
  {
    hide DecodeHex;
  }

  /** The optional fields of a legacy attestation line. */
  function OptionalWord(words: seq<string>, k: nat): string
    requires |words| == 5 ==> k < 5
  {
    if |words| == 5 then Undashed(words[k]) else ""
  }

  lemma LegacyAttestationDecided(words: seq<string>)
    requires (|words| == 3 || |words| == 5) && words[1] == "ATT"
    ensures DecideLegacy(words[1..])
         == DecideAttestation(DecodeRequiredHex(words[2], "missing_public_key"),
              DecodeOptionalHex(OptionalWord(words, 3)), DecodeOptionalHex(OptionalWord(words, 4)))
  {
    hide ValidCode, DecodeRequiredHex, DecodeHex, DecideAttestation, DecodeOptionalLegacyHex;
    if |words| == 5 {
      LegacyFieldRead(words[3]);
      LegacyFieldRead(words[4]);
    }
  }

  lemma TrimmedHasFields(s: string)
    requires TrimSpace(s) != ""
    ensures Fields(TrimSpace(s)) != []
  {
    hide TrimSpace, Word;
    var t := TrimSpace(s);
    assert TrimLeft(t, SPACE) == t;
  }

  lemma LegacyDispatch(backend: Backend, decode: Decoder, calls: seq<Call>, line: string)
    requires !LooksJSON(line) && TrimSpace(line) != ""
    ensures var words := Fields(TrimSpace(line));
            && words != []
            && Answer(backend, decode, calls, line) ==
                 if ValidNsmID(words[0]) then
                   var (outcome, after) := Perform(backend, calls, DecideLegacy(words[1..]));
                   (Response(false, words[0], outcome), after)
                 else (Response(false, "0", Failed("invalid_id")), calls)
  {
    hide TrimSpace, Fields, ValidNsmID, ValidCode, Perform, DecideLegacy;
    TrimmedHasFields(line);
  }

  /** Every legacy line with a valid id, exactly, by the number and kind of its words. */
  lemma LegacyLineExactly(backend: Backend, decode: Decoder, calls: seq<Call>, line: string, words: seq<string>)
    requires !LooksJSON(line) && words == Fields(TrimSpace(line))
    requires words != [] && ValidNsmID(words[0])
    ensures var (a, n, id) := (Answer(backend, decode, calls, line), |words|, words[0]);
            if n == 1 then Refused(a, calls, false, id, "invalid_request")
            else if words[1] == "ATT" then
              if n == 2 then Refused(a, calls, false, id, "missing_public_key")
              else if n == 3 || n == 5 then
                AttestationAnswered(a, backend, calls, false, id, words[2], OptionalWord(words, 3), OptionalWord(words, 4))
              else Refused(a, calls, false, id, "invalid_request")
            else if words[1] == "RND" then
              if n == 2 then Served(a, backend, calls, false, id, Random)
              else Refused(a, calls, false, id, "invalid_request")
            else Refused(a, calls, false, id, "unknown_method")
  {
    hide TrimSpace, Fields, ValidNsmID, ValidCode, Perform, Answer, LooksJSON, DecideAttestation, DecodeRequiredHex,
      DecodeOptionalHex, DecodeOptionalLegacyHex, AttestationAnswered, Served, Refused;
    BlankHasNoFields(line);
    LegacyDispatch(backend, decode, calls, line);
    var d := DecideLegacy(words[1..]);
    Performed(backend, calls, d, false, words[0]);
    if (|words| == 3 || |words| == 5) && words[1] == "ATT" {
      LegacyAttestationDecided(words);
      AttestationPerformed(backend, calls, d, false, words[0], words[2], OptionalWord(words, 3), OptionalWord(words, 4));
    }
  }

  lemma BlankHasNoFields(line: string)
    ensures TrimSpace(line) == "" ==> Fields(TrimSpace(line)) == []
  {
    hide TrimSpace;
    NoFields();
  }

  /** A legacy line asks the backend exactly when its words are a random request by itself,
      or an attestation request with a key alone or with both optional words, all in hex. */
  lemma LegacyLineRefusals(backend: Backend, decode: Decoder, calls: seq<Call>, line: string, words: seq<string>)
    requires !LooksJSON(line) && words == Fields(TrimSpace(line))
    requires words != [] && ValidNsmID(words[0])
    ensures var a := Answer(backend, decode, calls, line);
            a.1 != calls <==>
              || (|words| == 2 && words[1] == "RND")
              || ((|words| == 3 || |words| == 5) && words[1] == "ATT" && HexText(words[2])
                    && HexText(OptionalWord(words, 3)) && HexText(OptionalWord(words, 4)))
    ensures var a := Answer(backend, decode, calls, line);
            a.1 == calls ==> a.0.outcome.Failed?
  {
    hide TrimSpace, ValidNsmID, Answer, LooksJSON, HexText, Attests, Delivers, Fields;
    LegacyLineExactly(backend, decode, calls, line, words);
    assert forall k :: 0 <= k < |words| ==> IsToken(words[k]);
  }

  /** Lines that name no valid id: blank ones, records that do not decode, and bad ids. The
      backend is not asked, and only a legacy response can say so under an id, `0`. */
  lemma LinesWithoutId(backend: Backend, decode: Decoder, calls: seq<Call>, line: string)
    ensures var (a, text) := (Answer(backend, decode, calls, line), TrimSpace(line));
            && (MadeOf(line, SPACE) ==> Refused(a, calls, false, "0", "empty_request"))
            && (LooksJSON(line) && decode(text) == None ==> Refused(a, calls, true, "", "invalid_json"))
            && (LooksJSON(line) && decode(text).Some? && !ValidNsmID(decode(text).value.id) ==>
                  Refused(a, calls, true, "", "invalid_id"))
            && (!LooksJSON(line) && !MadeOf(line, SPACE) ==>
                  Fields(text) != [] && (!ValidNsmID(Fields(text)[0]) ==> Refused(a, calls, false, "0", "invalid_id")))
  {
    hide TrimSpace, Fields, ValidNsmID, ValidCode, Perform, DecideLegacy, DecideJSON, MadeOf;
    if !LooksJSON(line) && TrimSpace(line) != "" {
      LegacyDispatch(backend, decode, calls, line);
    }
  }

  // --------------------------------------------------------------- one line, there and back

  function OptionalHex(o: Option<seq<byte>>): string {
    match o case None => "" case Some(b) => EncodeHex(b)
  }

  /** The request by which a client asks for a backend call. */
  function RequestOf(id: string, call: Call): Request {
    match call
    case Attest(publicKey, nonce, userData) =>
      Request(id, "ATT", EncodeHex(publicKey), OptionalHex(nonce), OptionalHex(userData))
    case Random => Request(id, "RND", "", "", "")
  }

  /** The protocol has no empty optional field: it arrives as an absent one. */
  function Arriving(call: Call): Call {
    match call
    case Attest(publicKey, nonce, userData) => Attest(publicKey, NonEmpty(nonce), NonEmpty(userData))
    case Random => Random
  }

  function NonEmpty(o: Option<seq<byte>>): Option<seq<byte>> {
    if o == Some([]) then None else o
  }

  /** A line that writes a request: a JSON record that decodes to it, or its words, where
      both optional fields may be left out when they are absent. */
  ghost predicate Writes(decode: Decoder, line: string, json: bool, id: string, call: Call) {
    var q := RequestOf(id, call);
    if json then LooksJSON(line) && decode(TrimSpace(line)) == Some(q)
    else
      || line == Join(LegacyWords(q), ' ')
      || (q.verb == "ATT" && q.nonce == "" && q.userData == "" && line == Join([id, "ATT", q.publicKey], ' '))
  }

  lemma EncodedField(b: seq<byte>)
    ensures DecodeHex(EncodeHex(b)) == Some(b) && (EncodeHex(b) == "" <==> b == [])
    ensures NoSpace(EncodeHex(b)) && EncodeHex(b) != "-"
  {
    hide DigitValue, HexDigit;
    DecodeOfEncode(b);
    DashIsNotHex();
  }

  lemma EncodedOptional(o: Option<seq<byte>>)
    ensures DecodeOptionalHex(OptionalHex(o)) == Optional(NonEmpty(o))
    ensures NoSpace(OptionalHex(o)) && OptionalHex(o) != "-"
  {
    hide DecodeHex, EncodeHex, NoSpace;
    if o.Some? {
      EncodedField(o.value);
    }
    assert NoSpace("") by { NothingHasNoSpace(); }
  }

  lemma NothingHasNoSpace()
    ensures NoSpace("")
  {
  }

  lemma RequestDecides(id: string, call: Call)
    requires ValidNsmID(id) && (call.Attest? ==> call.publicKey != [])
    ensures DecideJSON(RequestOf(id, call)) == Ask(Arriving(call))
    ensures Expressible(RequestOf(id, call)) && !DashMatters(RequestOf(id, call))
  {
    hide DecodeHex, EncodeHex, ValidNsmID, ValidCode, NoSpace, OptionalHex, DecodeOptionalHex;
    VerbsAreTokens();
    NothingHasNoSpace();
    if call.Attest? {
      EncodedField(call.publicKey);
      EncodedOptional(call.nonce);
      EncodedOptional(call.userData);
    }
  }

  lemma VerbsAreTokens()
    ensures IsToken("ATT") && IsToken("RND")
  {
  }

  /** A line that writes a request is answered from the one backend call it asks for. */
  lemma RequestServed(backend: Backend, decode: Decoder, calls: seq<Call>, line: string, json: bool, id: string, call: Call)
    requires ValidNsmID(id) && (call.Attest? ==> call.publicKey != [])
    requires Writes(decode, line, json, id, call)
    ensures Served(Answer(backend, decode, calls, line), backend, calls, json, id, Arriving(call))
  {
    hide TrimSpace, ValidNsmID, ValidCode, Perform, DecideJSON, Delivers, AnswerLegacy, Join, Expressible, DashMatters,
      LegacyWords, RequestOf, Fields;
    var q := RequestOf(id, call);
    RequestHead(id, call);
    RequestDecides(id, call);
    Performed(backend, calls, DecideJSON(q), true, id);
    if !json {
      FrontEndsAgree(backend, decode, calls, q);
    }
  }

  lemma RequestHead(id: string, call: Call)
    ensures RequestOf(id, call).id == id
  {
  }

  /** What a client reads: the response line is one line, and it parses to the id the client
      chose and the backend's reply. */
  predicate Reads(line: string, json: bool, id: string, reply: Reply) {
    && '\n' !in line
    && var r := ParseResponse(line);
       r.Some? && r.value.json == json && r.value.id == id && Delivers(reply, r.value.outcome)
  }

  /** Attestation, there and back, on either front end: the backend is asked once, for exactly
      the client's bytes, and the response line the client reads holds the backend's bytes
      or its error. */
  lemma AttestationEndToEnd(backend: Backend, decode: Decoder, calls: seq<Call>, line: string, json: bool, id: string,
    publicKey: seq<byte>, nonce: Option<seq<byte>>, userData: Option<seq<byte>>)
    requires ValidNsmID(id) && publicKey != []
    requires Writes(decode, line, json, id, Attest(publicKey, nonce, userData))
    ensures var (response, after) := Answer(backend, decode, calls, line);
            var call := Attest(publicKey, NonEmpty(nonce), NonEmpty(userData));
            after == calls + [call] && Reads(Render(response), json, id, backend(calls, call))
  {
    hide Answer, Render, ParseResponse, Writes, ValidNsmID, Delivers, WellFormed;
    var call := Attest(publicKey, nonce, userData);
    RequestServed(backend, decode, calls, line, json, id, call);
    ParseOfRender(Answer(backend, decode, calls, line).0);
  }

  /** The same for random bytes. */
  lemma RandomEndToEnd(backend: Backend, decode: Decoder, calls: seq<Call>, line: string, json: bool, id: string)
    requires ValidNsmID(id) && Writes(decode, line, json, id, Random)
    ensures var (response, after) := Answer(backend, decode, calls, line);
            after == calls + [Random] && Reads(Render(response), json, id, backend(calls, Random))
  {
    hide Answer, Render, ParseResponse, Writes, ValidNsmID, Delivers, WellFormed;
    RequestServed(backend, decode, calls, line, json, id, Random);
    ParseOfRender(Answer(backend, decode, calls, line).0);
  }

  // ----------------------------------------------------------------------- a whole session

  /** One request of a session and the line that carries it. */
  datatype Message = Message(id: string, call: Call, json: bool, line: string, crlf: bool)

  function LineEnd(m: Message): string {
    if m.crlf then "\r\n" else "\n"
  }

  /** The line holds no line feed and does not end in a carriage return. */
  predicate OneLine(line: string) {
    '\n' !in line && line != "" && line[|line| - 1] !in CRLF
  }

  ghost predicate Sendable(decode: Decoder, m: Message) {
    && ValidNsmID(m.id) && (m.call.Attest? ==> m.call.publicKey != [])
    && Writes(decode, m.line, m.json, m.id, m.call)
    && (m.json ==> OneLine(m.line))
    && |m.line| + |LineEnd(m)| <= LINE_MAX
  }

  function Input(ms: seq<Message>): string {
    if ms == [] then "" else ms[0].line + LineEnd(ms[0]) + Input(ms[1..])
  }

  function Asked(ms: seq<Message>): (calls: seq<Call>)
    ensures |calls| == |ms|
  {
    seq(|ms|, k requires 0 <= k < |ms| => Arriving(ms[k].call))
  }

  lemma {:induction false} JoinOfTokens(words: seq<string>)
    requires |words| >= 1 && forall k :: 0 <= k < |words| ==> IsToken(words[k])
    ensures OneLine(Join(words, ' '))
  {
    JoinIsTight(words);
    assert '\n' !in words[0];
    if |words| > 1 {
      JoinOfTokens(words[1..]);
    }
  }

  lemma LegacyIsOneLine(id: string, call: Call)
    requires ValidNsmID(id) && (call.Attest? ==> call.publicKey != [])
    ensures var q := RequestOf(id, call);
            && OneLine(Join(LegacyWords(q), ' '))
            && (q.verb == "ATT" ==> OneLine(Join([id, "ATT", q.publicKey], ' ')))
  {
    hide ValidNsmID, OneLine, Join, RequestOf, DashMatters;
    var q := RequestOf(id, call);
    RequestHead(id, call);
    RequestDecides(id, call);
    IdIsToken(id);
    VerbsAreTokens();
    assert IsToken("-");
    JoinOfTokens(LegacyWords(q));
    if q.verb == "ATT" {
      JoinOfTokens([id, "ATT", q.publicKey]);
    }
  }

  lemma SendableIsOneLine(decode: Decoder, m: Message)
    requires Sendable(decode, m)
    ensures OneLine(m.line)
  {
    hide ValidNsmID, OneLine, Join, RequestOf, LegacyWords, LooksJSON;
    if !m.json {
      LegacyIsOneLine(m.id, m.call);
    }
  }

  /** A line with its line end is one record of the stream, and reading it gives the line
      back, for every buffer size. */
  lemma LineIsRecord(line: string, lineEnd: string, rest: string, size: nat, end: StreamEnd)
    requires size >= 1 && OneLine(line) && (lineEnd == "\n" || lineEnd == "\r\n")
    requires |line| + |lineEnd| <= LINE_MAX
    ensures IsRecordOf(line + lineEnd, rest)
    ensures Classify(line + lineEnd, size, end) == Line(line)
  {
    hide TrimRight, LooksLikeJSON, Seen;
    TrimRightUnique(lineEnd, line, CRLF);
    var record := line + lineEnd;
    assert record[|record| - 1] == '\n';
    assert record[..|record| - 1] == line + lineEnd[..|lineEnd| - 1];
  }

  lemma LineAnswered(line: string, lineEnd: string, rest: string, size: nat, end: StreamEnd, backend: Backend, decode: Decoder, calls: seq<Call>)
    requires size >= 1 && OneLine(line) && (lineEnd == "\n" || lineEnd == "\r\n")
    requires |line| + |lineEnd| <= LINE_MAX
    ensures IsRecordOf(line + lineEnd, rest)
    ensures Respond(line + lineEnd, size, end, backend, decode, calls) == Some(Answer(backend, decode, calls, line))
  {
    hide Answer, Classify, OneLine, IsRecordOf;
    LineIsRecord(line, lineEnd, rest, size, end);
  }

  /** Serving a session serves its first message and then the others. */
  lemma SessionStep(ms: seq<Message>, size: nat, end: StreamEnd, backend: Backend, decode: Decoder, calls: seq<Call>)
    requires size >= 1 && ms != [] && Sendable(decode, ms[0])
    ensures var m := ms[0];
            var a := Answer(backend, decode, calls, m.line);
            var (rest, after) := Serve(Records(Input(ms[1..])), size, end, backend, decode, calls + [Arriving(m.call)]);
            && Served(a, backend, calls, m.json, m.id, Arriving(m.call))
            && Serve(Records(Input(ms)), size, end, backend, decode, calls) == ([a.0] + rest, after)
  {
    hide Records, Answer, Respond, Sendable, Delivers, OneLine, IsRecordOf, Arriving, Serve;
    var m, rest := ms[0], Input(ms[1..]);
    var record := m.line + LineEnd(m);
    SendableIsOneLine(decode, m);
    SendableFits(decode, m);
    LineAnswered(m.line, LineEnd(m), rest, size, end, backend, decode, calls);
    MessageServed(backend, decode, calls, m);
    NextResponse(record, rest, size, end, backend, decode, calls);
    FirstAndRest(Serve(Records(record + rest), size, end, backend, decode, calls).0);
  }

  lemma FirstAndRest(responses: seq<Response>)
    ensures responses != [] ==> responses == [responses[0]] + responses[1..]
  {
  }

  lemma AskedCons(ms: seq<Message>, calls: seq<Call>)
    requires ms != []
    ensures Asked(ms)[0] == Arriving(ms[0].call)
    ensures calls + Asked(ms) == (calls + [Arriving(ms[0].call)]) + Asked(ms[1..])
    ensures forall k :: 1 <= k < |ms| ==>
      && Asked(ms)[k] == Asked(ms[1..])[k - 1]
      && calls + Asked(ms)[..k] == (calls + [Arriving(ms[0].call)]) + Asked(ms[1..])[..k - 1]
  {
    assert Asked(ms) == [Arriving(ms[0].call)] + Asked(ms[1..]);
  }

  /** The response to message `k` after the calls of the messages before it. */
  ghost predicate Replied(ms: seq<Message>, k: nat, backend: Backend, calls: seq<Call>, response: Response)
    requires k < |ms|
  {
    && WellFormed(response) && response.json == ms[k].json && response.id == ms[k].id
    && Delivers(backend(calls + Asked(ms)[..k], Asked(ms)[k]), response.outcome)
  }

  lemma FirstReplied(ms: seq<Message>, backend: Backend, calls: seq<Call>, a: Answered)
    requires ms != [] && WellFormed(a.0)
    requires Served(a, backend, calls, ms[0].json, ms[0].id, Arriving(ms[0].call))
    ensures Replied(ms, 0, backend, calls, a.0)
  {
    hide WellFormed, Delivers, Arriving;
    assert calls + Asked(ms)[..0] == calls;
  }

  lemma LaterReplied(ms: seq<Message>, k: nat, backend: Backend, calls: seq<Call>, response: Response)
    requires 1 <= k < |ms|
    requires Replied(ms[1..], k - 1, backend, calls + [Arriving(ms[0].call)], response)
    ensures Replied(ms, k, backend, calls, response)
  {
    hide WellFormed, Delivers, Arriving, Asked;
    AskedCons(ms, calls);
  }

  lemma {:induction false} SessionServed(ms: seq<Message>, size: nat, end: StreamEnd, backend: Backend, decode: Decoder, calls: seq<Call>)
    requires size >= 1 && forall k :: 0 <= k < |ms| ==> Sendable(decode, ms[k])
    ensures var (responses, after) := Serve(Records(Input(ms)), size, end, backend, decode, calls);
            && after == calls + Asked(ms) && |responses| == |ms|
            && forall k :: 0 <= k < |ms| ==> Replied(ms, k, backend, calls, responses[k])
  {
    hide Records, Answer, Sendable, WellFormed, Replied, Served, Arriving, Asked, Respond;
    if ms == [] {
      NothingRead(size, end);
    } else {
      hide Serve, Input;
      SessionStep(ms, size, end, backend, decode, calls);
      var a := Answer(backend, decode, calls, ms[0].line);
      var after := calls + [Arriving(ms[0].call)];
      FirstReplied(ms, backend, calls, a);
      SessionServed(ms[1..], size, end, backend, decode, after);
      AskedCons(ms, calls);
      var rest := Serve(Records(Input(ms[1..])), size, end, backend, decode, after).0;
      forall k | 1 <= k < |ms|
        ensures Replied(ms, k, backend, calls, ([a.0] + rest)[k])
      {
        LaterReplied(ms, k, backend, calls, rest[k - 1]);
      }
    }
  }

  lemma SendableFits(decode: Decoder, m: Message)
    requires Sendable(decode, m) && OneLine(m.line)
    ensures m.line != "" && |m.line| + |LineEnd(m)| <= LINE_MAX
  {
  }

  lemma MessageServed(backend: Backend, decode: Decoder, calls: seq<Call>, m: Message)
    requires Sendable(decode, m)
    ensures Served(Answer(backend, decode, calls, m.line), backend, calls, m.json, m.id, Arriving(m.call))
  {
    hide Answer, Writes, Served, Arriving, ValidNsmID;
    RequestServed(backend, decode, calls, m.line, m.json, m.id, m.call);
  }

  /** A session of any length, each request on either front end and with either line end,
      read through a buffer of any size: the backend is asked exactly the client's calls, in
      order, and the client splitting the output at line feeds reads, line by line, the
      reply to each. */
  lemma SessionEndToEnd(ms: seq<Message>, size: nat, end: StreamEnd, backend: Backend, decode: Decoder)
    requires size >= 1 && forall k :: 0 <= k < |ms| ==> Sendable(decode, ms[k])
    ensures var (responses, after) := Serve(Records(Input(ms)), size, end, backend, decode, []);
            var lines := Split(Frames(responses), '\n');
            && after == Asked(ms)
            && |lines| == |ms| + 1 && lines[|ms|] == ""
            && forall k :: 0 <= k < |ms| ==>
                 Reads(lines[k], ms[k].json, ms[k].id, backend(Asked(ms)[..k], Asked(ms)[k]))
  {
    hide Records, Serve, Sendable, WellFormed, Delivers, Frames, ParseResponse, Asked, Split;
    SessionServed(ms, size, end, backend, decode, []);
    var (responses, after) := Serve(Records(Input(ms)), size, end, backend, decode, []);
    FramesRoundTrip(responses);
    assert [] + Asked(ms) == Asked(ms);
    forall k | 0 <= k < |ms|
      ensures [] + Asked(ms)[..k] == Asked(ms)[..k]
    {
    }
  }
}

/** Response lines (nsm.go): how they are written, and that a client can read them back. */
module NsmWire {
  import opened Text
  import opened Hex
  import opened NsmProtocol

  // ---------------------------------------------------------------------- writing

  /** How Go's JSON encoder writes one ASCII character of a string (section 7 of RFC 8259,
      with the encoder's HTML-safe escapes). */
  function EscapeChar(c: char): string {
    if c == '"' then "\\\""
    else if c == '\\' then "\\\\"
    else if c == '\n' then "\\n"
    else if c == '\r' then "\\r"
    else if c == '\t' then "\\t"
    else if c as int == 8 then "\\b"
    else if c as int == 12 then "\\f"
    else if c < ' ' || c == '<' || c == '>' || c == '&' then
      "\\u00" + [HexDigit(c as int / 16), HexDigit(c as int % 16)]
    else [c]
  }

  function Escape(s: string): string {
    if s == "" then "" else EscapeChar(s[0]) + Escape(s[1..])
  }

  const OPEN := "{\"id\":\""
  const OK_EMPTY := "\",\"ok\":true}"
  const OK_DATA := "\",\"ok\":true,\"data\":\""
  const NOT_OK := "\",\"ok\":false,\"error\":\""
  const CLOSE := "\"}"

  function RenderJSON(id: string, outcome: Outcome): string {
    OPEN + Escape(id) +
    match outcome
    case Success(data) =>
      if data == [] then OK_EMPTY else OK_DATA + Escape(EncodeHex(data)) + CLOSE
    case Failed(code) => NOT_OK + Escape(code) + CLOSE
  }

  function RenderLegacy(id: string, outcome: Outcome): string {
    match outcome
    case Success(data) => id + " OK " + EncodeHex(data)
    case Failed(code) => id + " ERR " + code
  }

  function Render(r: Response): string {
    if r.json then RenderJSON(r.id, r.outcome) else RenderLegacy(r.id, r.outcome)
  }

  // ---------------------------------------------------------------------- reading

  function Until(s: string, stop: char): (w: string)
    ensures w <= s
  {
    if s == "" || s[0] == stop then "" else [s[0]] + Until(s[1..], stop)
  }

  function ParseOutcomeJSON(rest: string): Option<Outcome> {
    if rest == OK_EMPTY then Some(Success([]))
    else if OK_DATA <= rest then
      var data := Until(rest[|OK_DATA|..], '"');
      if rest == OK_DATA + data + CLOSE && DecodeHex(data).Some? then Some(Success(DecodeHex(data).value))
      else None
    else if NOT_OK <= rest then
      var code := Until(rest[|NOT_OK|..], '"');
      if rest == NOT_OK + code + CLOSE then Some(Failed(code)) else None
    else None
  }

  function ParseOutcomeLegacy(rest: string): Option<Outcome> {
    if " OK " <= rest then
      match DecodeHex(rest[4..]) case Some(data) => Some(Success(data)) case None => None
    else if " ERR " <= rest then Some(Failed(rest[5..]))
    else None
  }

  /** What a client makes of one response line. */
  function ParseResponse(line: string): Option<Response> {
    if OPEN <= line then
      var id := Until(line[|OPEN|..], '"');
      match ParseOutcomeJSON(line[|OPEN| + |id|..])
      case Some(outcome) => Some(Response(true, id, outcome))
      case None => None
    else
      var id := Until(line, ' ');
      match ParseOutcomeLegacy(line[|id|..])
      case Some(outcome) => Some(Response(false, id, outcome))
      case None => None
  }

  // ------------------------------------------------------------------- round trip

  predicate Plain(c: char) {
    'a' <= c <= 'z' || 'A' <= c <= 'Z' || '0' <= c <= '9' || c == '_' || c == '-' || c == '.' || c == ':'
  }

  predicate AllPlain(s: string) {
    forall c :: c in s ==> Plain(c)
  }

  lemma PlainCharacter(c: char)
    requires Plain(c)
    ensures EscapeChar(c) == [c]
  {
  }

  /** Ids, codes and hex need no escaping. */
  lemma {:induction false} PlainNeedsNoEscape(s: string)
    requires AllPlain(s)
    ensures Escape(s) == s
  {
    hide EscapeChar;
    if s != "" {
      PlainCharacter(s[0]);
      PlainNeedsNoEscape(s[1..]);
      assert [s[0]] + s[1..] == s;
    }
  }

  lemma {:induction false} UntilStops(w: string, stop: char, rest: string)
    requires stop !in w && rest != "" && rest[0] == stop
    ensures Until(w + rest, stop) == w
  {
    if w == "" {
      assert w + rest == rest;
    } else {
      assert (w + rest)[1..] == w[1..] + rest;
      UntilStops(w[1..], stop, rest);
      assert [w[0]] + w[1..] == w;
    }
  }

  lemma ResponsePartsPlain(r: Response)
    requires WellFormed(r)
    ensures AllPlain(r.id)
    ensures match r.outcome
            case Failed(code) => AllPlain(code)
            case Success(data) => AllPlain(EncodeHex(data)) && DecodeHex(EncodeHex(data)) == Some(data)
  {
    hide EncodeHex, DecodeHex;
    match r.outcome {
      case Failed(code) =>
      case Success(data) => DecodeOfEncode(data);
    }
  }

  /** The forms of a response line, with plain text between fixed punctuation. */
  lemma ResponseForms(r: Response)
    requires WellFormed(r)
    ensures match (r.json, r.outcome)
            case (true, Success(data)) =>
              Render(r) == "{\"id\":\"" + r.id + "\",\"ok\":true" +
                (if data == [] then "" else ",\"data\":\"" + EncodeHex(data) + "\"") + "}"
            case (true, Failed(code)) =>
              Render(r) == "{\"id\":\"" + r.id + "\",\"ok\":false,\"error\":\"" + code + "\"}"
            case (false, Success(data)) => Render(r) == r.id + " OK " + EncodeHex(data)
            case (false, Failed(code)) => Render(r) == r.id + " ERR " + code
  {
    hide EncodeHex, DecodeHex, Escape, WellFormed, AllPlain;
    ResponsePartsPlain(r);
    PlainNeedsNoEscape(r.id);
    match r.outcome {
      case Failed(code) => PlainNeedsNoEscape(code);
      case Success(data) => PlainNeedsNoEscape(EncodeHex(data));
    }
  }

  lemma ParseSuccessJSON(data: seq<byte>)
    requires data != [] && AllPlain(EncodeHex(data)) && DecodeHex(EncodeHex(data)) == Some(data)
    ensures ParseOutcomeJSON(OK_DATA + EncodeHex(data) + CLOSE) == Some(Success(data))
  {
    hide EncodeHex, DecodeHex, Until;
    var hex := EncodeHex(data);
    var rest := OK_DATA + hex + CLOSE;
    assert !Plain('"');
    UntilStops(hex, '"', CLOSE);
    assert rest[|OK_DATA|..] == hex + CLOSE;
    assert rest[11] == ',' && OK_EMPTY[11] == '}';
  }

  lemma ParseFailureJSON(code: string)
    requires AllPlain(code)
    ensures ParseOutcomeJSON(NOT_OK + code + CLOSE) == Some(Failed(code))
  {
    hide DecodeHex, Until;
    var rest := NOT_OK + code + CLOSE;
    assert !Plain('"');
    UntilStops(code, '"', CLOSE);
    assert rest[|NOT_OK|..] == code + CLOSE;
    assert rest[7] == 'f' && OK_EMPTY[7] == 't' && OK_DATA[7] == 't';
  }

  lemma ParseOfRenderJSON(r: Response)
    requires WellFormed(r) && r.json
    ensures ParseResponse(Render(r)) == Some(r)
  {
    hide EncodeHex, DecodeHex, Escape, Until, ParseOutcomeJSON, AllPlain, WellFormed, ParseOutcomeLegacy;
    ResponsePartsPlain(r);
    PlainNeedsNoEscape(r.id);
    var tail := match r.outcome
      case Failed(code) => NOT_OK + code + CLOSE
      case Success(data) => if data == [] then OK_EMPTY else OK_DATA + EncodeHex(data) + CLOSE;
    match r.outcome {
      case Failed(code) =>
        PlainNeedsNoEscape(code);
        ParseFailureJSON(code);
      case Success(data) =>
        PlainNeedsNoEscape(EncodeHex(data));
        if data != [] {
          ParseSuccessJSON(data);
        } else {
          ParseEmptyJSON();
        }
    }
    JSONHead(r.id, tail);
    assert Render(r) == OPEN + r.id + tail;
  }

  lemma ParseEmptyJSON()
    ensures ParseOutcomeJSON(OK_EMPTY) == Some(Success([]))
  {
  }

  lemma JSONHead(id: string, tail: string)
    requires AllPlain(id) && tail != "" && tail[0] == '"'
    ensures var line := OPEN + id + tail;
            && OPEN <= line
            && Until(line[|OPEN|..], '"') == id
            && line[|OPEN| + |id|..] == tail
  {
    hide Until;
    assert !Plain('"');
    UntilStops(id, '"', tail);
    assert (OPEN + id + tail)[|OPEN|..] == id + tail;
  }

  lemma LegacyHead(id: string, tail: string)
    requires AllPlain(id) && id != "" && tail != "" && tail[0] == ' '
    ensures var line := id + tail;
            && !(OPEN <= line)
            && Until(line, ' ') == id
            && line[|id|..] == tail
  {
    hide Until;
    assert !Plain(' ') && !Plain('{');
    UntilStops(id, ' ', tail);
    assert id[0] in id;
    assert (id + tail)[0] == id[0] && OPEN[0] == '{';
  }

  lemma ParseOfRenderLegacy(r: Response)
    requires WellFormed(r) && !r.json
    ensures ParseResponse(Render(r)) == Some(r)
  {
    hide EncodeHex, DecodeHex, Until, AllPlain, ParseOutcomeJSON;
    ResponsePartsPlain(r);
    match r.outcome {
      case Failed(code) =>
        var tail := " ERR " + code;
        assert Render(r) == r.id + tail && tail[5..] == code;
        assert tail[1] == 'E';
        LegacyHead(r.id, tail);
      case Success(data) =>
        var tail := " OK " + EncodeHex(data);
        assert Render(r) == r.id + tail && tail[4..] == EncodeHex(data);
        LegacyHead(r.id, tail);
    }
  }

  lemma RenderHasNoNewline(r: Response)
    requires WellFormed(r)
    ensures '\n' !in Render(r)
  {
    hide EncodeHex, DecodeHex, Escape, WellFormed;
    assert !Plain('\n');
    ResponsePartsPlain(r);
    PlainNeedsNoEscape(r.id);
    match r.outcome {
      case Failed(code) => PlainNeedsNoEscape(code);
      case Success(data) => PlainNeedsNoEscape(EncodeHex(data));
    }
  }

  /** A response line has no line feed in it and parses back to its response. */
  lemma ParseOfRender(r: Response)
    requires WellFormed(r)
    ensures ParseResponse(Render(r)) == Some(r) && '\n' !in Render(r)
  {
    hide *;
    if r.json { ParseOfRenderJSON(r); } else { ParseOfRenderLegacy(r); }
    RenderHasNoNewline(r);
  }

  // ---------------------------------------------------------------------- streams

  /** The output stream for a list of responses. */
  function Frames(rs: seq<Response>): string {
    if rs == [] then "" else Render(rs[0]) + "\n" + Frames(rs[1..])
  }

  /** Splitting the output at line feeds and parsing every line recovers exactly the
      responses, in order. */
  lemma {:induction false} FramesRoundTrip(rs: seq<Response>)
    requires forall k :: 0 <= k < |rs| ==> WellFormed(rs[k])
    ensures var lines := Split(Frames(rs), '\n');
            && |lines| == |rs| + 1 && lines[|rs|] == ""
            && forall k :: 0 <= k < |rs| ==> lines[k] == Render(rs[k]) && ParseResponse(lines[k]) == Some(rs[k])
  {
    hide WellFormed, Render, ParseResponse, Split;
    if rs == [] {
      SplitNone("", '\n');
    } else {
      ParseOfRender(rs[0]);
      FramesRoundTrip(rs[1..]);
      SplitAtFirst(Render(rs[0]), Frames(rs[1..]), '\n');
    }
  }
}

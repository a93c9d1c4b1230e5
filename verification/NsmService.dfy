/** The request loop of the NSM proxy (nsm.go): framing, handler and responses together. */
module NsmService {
  import opened Text
  import opened Hex
  import opened NsmProtocol
  import opened NsmWire
  import opened NsmFraming

  type Decoder = string -> Option<Request>

  // -------------------------------------------------------------- specification

  function TooLargeResponse(jsonLike: bool): (r: Response)
    ensures WellFormed(r)
  {
    OwnCodes();
    ZeroIsValid();
    Response(jsonLike, if jsonLike then "" else "0", Failed("line_too_large"))
  }

  /** The response to one record and the backend calls made by then; none when reading it
      ends the service. */
  function Respond(record: string, size: nat, end: StreamEnd, backend: Backend, decode: Decoder, calls: seq<Call>)
    : (r: Option<(Response, seq<Call>)>)
    requires size >= 1
    ensures r.Some? ==> WellFormed(r.value.0) && calls <= r.value.1
  {
    hide WellFormed, Answer, Classify;
    match Classify(record, size, end)
    case Line(text) => Some(Answer(backend, decode, calls, text))
    case TooLarge(jsonLike) => Some((TooLargeResponse(jsonLike), calls))
    case Finished => None
    case Broken => None
  }

  /** The responses to a list of records, in order, and all backend calls. */
  function Serve(records: seq<string>, size: nat, end: StreamEnd, backend: Backend, decode: Decoder, calls: seq<Call>)
    : (seq<Response>, seq<Call>)
    requires size >= 1
  {
    if records == [] then ([], calls)
    else
      match Respond(records[0], size, end, backend, decode, calls)
      case None => ([], calls)
      case Some((response, after)) =>
        var (rest, all) := Serve(records[1..], size, end, backend, decode, after);
        ([response] + rest, all)
  }

  // ------------------------------------------------------------------- the code

  /** The NSM device: any backend, with the calls it has received. */
  class Device {
    const backend: Backend
    var calls: seq<Call>

    constructor (backend: Backend)
      ensures this.backend == backend && calls == []
    {
      this.backend := backend;
      calls := [];
    }
  }

  class Output {
    var text: string

    constructor ()
      ensures text == ""
    {
      text := "";
    }

    method Println(line: string)
      modifies this
      ensures text == old(text) + line + "\n"
    {
      text := text + line + "\n";
    }
  }

  method HandleNsmLine(device: Device, decode: Decoder, line: string) returns (response: string)
    modifies device
    ensures var (r, after) := Answer(device.backend, decode, old(device.calls), line);
            && response == Render(r) && ParseResponse(response) == Some(r) && '\n' !in response
            && device.calls == after && OneCallAtMost(device.backend, old(device.calls), r.outcome, after)
  {
    hide Answer, Render, ParseResponse, WellFormed, OneCallAtMost;
    var (r, after) := Answer(device.backend, decode, device.calls, line);
    device.calls := after;
    ParseOfRender(r);
    return Render(r);
  }

  /** Reads one record and writes its response line; `more` is false at the end. */
  method ServeRecord(reader: Reader, device: Device, decode: Decoder, out: Output)
    returns (more: bool, ghost record: string)
    requires reader.Valid()
    modifies reader, device, out
    ensures reader.Valid() && record + reader.Unread() == old(reader.Unread())
    ensures IsRecordOf(record, reader.Unread())
    ensures match Respond(record, reader.size, reader.end, device.backend, decode, old(device.calls))
            case None => !more && out.text == old(out.text) && device.calls == old(device.calls)
            case Some((response, after)) =>
              more && out.text == old(out.text) + Render(response) + "\n" && device.calls == after
  {
    hide Render, Answer, Classify, TooLargeResponse, IsRecordOf;
    var line: Line;
    ghost var kept;
    line, kept, record := ReadNsmLine(reader);
    match line {
      case Finished => return false, record;
      case Broken => return false, record;
      case TooLarge(jsonLike) =>
        out.Println(Render(TooLargeResponse(jsonLike)));
      case Line(text) =>
        var response := HandleNsmLine(device, decode, text);
        out.Println(response);
    }
    return true, record;
  }

  /** Reads records until the input ends and writes one response line for each. */
  method NsmMode(reader: Reader, device: Device, decode: Decoder, out: Output)
    requires reader.Valid()
    modifies reader, device, out
    ensures var (responses, calls) :=
              Serve(Records(old(reader.Unread())), reader.size, reader.end, device.backend, decode, old(device.calls));
            out.text == old(out.text) + Frames(responses) && device.calls == calls
  {
    hide Render, Records, Respond, Serve, IsRecordOf;
    ghost var input, calls0 := reader.Unread(), device.calls;
    ghost var (all, finalCalls) := Serve(Records(input), reader.size, reader.end, device.backend, decode, calls0);
    ghost var rest := all;
    var more := true;
    while more
      invariant reader.Valid()
      invariant out.text + Frames(rest) == old(out.text) + Frames(all)
      invariant if more then
          (rest, finalCalls) == Serve(Records(reader.Unread()), reader.size, reader.end, device.backend, decode, device.calls)
        else rest == [] && device.calls == finalCalls
      decreases |reader.Unread()|, more
    {
      ghost var calls, text := device.calls, out.text;
      ghost var record;
      more, record := ServeRecord(reader, device, decode, out);
      NextResponse(record, reader.Unread(), reader.size, reader.end, device.backend, decode, calls);
      if more {
        assert out.text + Frames(rest[1..]) == text + Frames(rest);
        rest := rest[1..];
      }
    }
  }

  /** Reading one record takes one step of the specification. */
  lemma NextResponse(record: string, unread: string, size: nat, end: StreamEnd, backend: Backend, decode: Decoder, calls: seq<Call>)
    requires size >= 1 && IsRecordOf(record, unread)
    ensures var (rest, all) := Serve(Records(record + unread), size, end, backend, decode, calls);
            match Respond(record, size, end, backend, decode, calls)
            case None => rest == [] && all == calls
            case Some((response, after)) =>
              && record != "" && rest != [] && rest[0] == response
              && (rest[1..], all) == Serve(Records(unread), size, end, backend, decode, after)
  {
    hide Records, Answer, TooLargeResponse, IsRecordOf;
    RecordsUnfold(record, unread);
    if record != "" {
      assert ([record] + Records(unread))[1..] == Records(unread);
    } else {
      NothingRead(size, end);
      assert Records("") == [];
    }
  }

  lemma NothingRead(size: nat, end: StreamEnd)
    requires size >= 1
    ensures Classify("", size, end).Finished? || Classify("", size, end).Broken?
    ensures Records("") == []
  {
  }

  // ------------------------------------------------------- what a client can rely on

  /** Every record of a stream but the last ends in a line feed, and none is empty. */
  ghost predicate StreamShaped(records: seq<string>) {
    && (forall k :: 0 <= k < |records| ==> records[k] != "")
    && (forall k :: 0 <= k < |records| - 1 ==> Terminated(records[k]))
  }

  lemma RecordsShaped(s: string)
    ensures StreamShaped(Records(s))
  {
    hide Split;
  }

  /** A last record cut off by a stream fault is the only one that gets no response. */
  predicate CutOff(record: string, end: StreamEnd) {
    end == Fault && !Terminated(record) && |record| <= LINE_MAX
  }

  /** The backend calls made before record `k` is answered. */
  function CallsBefore(k: nat, records: seq<string>, size: nat, end: StreamEnd, backend: Backend, decode: Decoder, calls: seq<Call>)
    : seq<Call>
    requires size >= 1 && k <= |records|
  {
    if k == 0 then calls
    else
      match Respond(records[0], size, end, backend, decode, calls)
      case None => calls
      case Some((_, after)) => CallsBefore(k - 1, records[1..], size, end, backend, decode, after)
  }

  /** The line written for an oversized record. */
  function TooLargeLine(jsonLike: bool): string {
    if jsonLike then "{\"id\":\"" + "" + "\",\"ok\":false,\"error\":\"" + "line_too_large" + "\"}"
    else "0" + " ERR " + "line_too_large"
  }

  lemma TooLargeText(jsonLike: bool)
    ensures Render(TooLargeResponse(jsonLike)) == TooLargeLine(jsonLike)
  {
    hide Render, WellFormed;
    ResponseForms(TooLargeResponse(jsonLike));
  }

  /** The answer to a record does not depend on its line end. */
  lemma AnswerToRecord(record: string, backend: Backend, decode: Decoder, calls: seq<Call>)
    ensures Answer(backend, decode, calls, TrimRight(record, CRLF)) == Answer(backend, decode, calls, record)
  {
    hide TrimSpace, TrimRight, AnswerJSON, AnswerLegacy;
    TrimSpaceOfTrimmed(record, CRLF);
  }

  lemma RespondsUnlessCutOff(record: string, size: nat, end: StreamEnd, backend: Backend, decode: Decoder, calls: seq<Call>)
    requires size >= 1 && record != ""
    ensures var r := Respond(record, size, end, backend, decode, calls);
            && (r.Some? <==> !CutOff(record, end))
            && (|record| > LINE_MAX ==> r == Some((TooLargeResponse(LooksLikeJSON(SeenPart(record, size))), calls)))
            && (|record| <= LINE_MAX && r.Some? ==> r == Some(Answer(backend, decode, calls, record)))
  {
    hide Answer, LooksLikeJSON, TrimRight, Seen, TooLargeResponse;
    AnswerToRecord(record, backend, decode, calls);
  }

  /** The response to record `k`, from the calls its predecessors left. */
  ghost predicate Answered(response: Response, k: nat, records: seq<string>, size: nat, end: StreamEnd, backend: Backend, decode: Decoder, calls: seq<Call>)
    requires size >= 1 && k < |records|
  {
    && WellFormed(response)
    && var r := Respond(records[k], size, end, backend, decode,
         CallsBefore(k, records, size, end, backend, decode, calls));
       r.Some? && response == r.value.0
  }

  lemma FirstAnswered(records: seq<string>, size: nat, end: StreamEnd, backend: Backend, decode: Decoder, calls: seq<Call>)
    requires size >= 1 && records != [] && Respond(records[0], size, end, backend, decode, calls).Some?
    ensures Answered(Respond(records[0], size, end, backend, decode, calls).value.0, 0,
              records, size, end, backend, decode, calls)
  {
    hide Respond, WellFormed;
    NoCallsBefore(records, size, end, backend, decode, calls);
  }

  lemma LaterAnswered(response: Response, k: nat, records: seq<string>, size: nat, end: StreamEnd, backend: Backend, decode: Decoder, calls: seq<Call>)
    requires size >= 1 && 1 <= k < |records|
    requires var r := Respond(records[0], size, end, backend, decode, calls);
             r.Some? && Answered(response, k - 1, records[1..], size, end, backend, decode, r.value.1)
    ensures Answered(response, k, records, size, end, backend, decode, calls)
  {
    hide Respond, WellFormed;
  }

  /** One response for each record, in order, from the calls its predecessors left. */
  lemma {:induction false} ResponsePerRecord(records: seq<string>, size: nat, end: StreamEnd, backend: Backend, decode: Decoder, calls: seq<Call>)
    requires size >= 1 && StreamShaped(records)
    ensures var n := |records|;
            var responses := Serve(records, size, end, backend, decode, calls).0;
            && |responses| == (if n > 0 && CutOff(records[n - 1], end) then n - 1 else n)
            && forall k :: 0 <= k < |responses| ==>
                 Answered(responses[k], k, records, size, end, backend, decode, calls)
  {
    hide *;
    ServeFirst(records, size, end, backend, decode, calls);
    if records != [] {
      CutOffLast(records, end);
      RespondsUnlessCutOff(records[0], size, end, backend, decode, calls);
      var r := Respond(records[0], size, end, backend, decode, calls);
      if r.Some? {
        ResponsePerRecord(records[1..], size, end, backend, decode, r.value.1);
        var rest := Serve(records[1..], size, end, backend, decode, r.value.1).0;
        AllAnswered(rest, records, size, end, backend, decode, calls);
      }
    }
  }

  lemma AllAnswered(rest: seq<Response>, records: seq<string>, size: nat, end: StreamEnd, backend: Backend, decode: Decoder, calls: seq<Call>)
    requires size >= 1 && 0 <= |rest| < |records|
    requires var r := Respond(records[0], size, end, backend, decode, calls);
             r.Some? && forall k :: 0 <= k < |rest| ==>
               Answered(rest[k], k, records[1..], size, end, backend, decode, r.value.1)
    ensures var responses := [Respond(records[0], size, end, backend, decode, calls).value.0] + rest;
            forall k :: 0 <= k < |responses| ==>
              Answered(responses[k], k, records, size, end, backend, decode, calls)
  {
    hide *;
    var first := [Respond(records[0], size, end, backend, decode, calls).value.0];
    FirstAnswered(records, size, end, backend, decode, calls);
    forall k | 1 <= k <= |rest|
      ensures Answered((first + rest)[k], k, records, size, end, backend, decode, calls)
    {
      LaterAnswered(rest[k - 1], k, records, size, end, backend, decode, calls);
    }
  }

  lemma ServeFirst(records: seq<string>, size: nat, end: StreamEnd, backend: Backend, decode: Decoder, calls: seq<Call>)
    requires size >= 1
    ensures var served := Serve(records, size, end, backend, decode, calls).0;
            if records == [] then served == []
            else
              var r := Respond(records[0], size, end, backend, decode, calls);
              if r.None? then served == []
              else served == [r.value.0] + Serve(records[1..], size, end, backend, decode, r.value.1).0
  {
    hide Respond;
  }

  /** Only the last record of a stream is cut off. */
  lemma CutOffLast(records: seq<string>, end: StreamEnd)
    requires StreamShaped(records) && records != []
    ensures records[0] != "" && StreamShaped(records[1..])
    ensures CutOff(records[0], end) ==> |records| == 1
    ensures |records| > 1 ==> records[1..][|records| - 2] == records[|records| - 1]
  {
  }

  /** The calls made before the next record are those its predecessor's response left. */
  lemma {:induction false} CallsBeforeNext(k: nat, records: seq<string>, size: nat, end: StreamEnd, backend: Backend, decode: Decoder, calls: seq<Call>)
    requires size >= 1 && k < |records|
    requires forall j :: 0 <= j <= k ==> records[j] != "" && !CutOff(records[j], end)
    ensures var r := Respond(records[k], size, end, backend, decode,
              CallsBefore(k, records, size, end, backend, decode, calls));
            r.Some? && CallsBefore(k + 1, records, size, end, backend, decode, calls) == r.value.1
  {
    hide *;
    RespondsUnlessCutOff(records[0], size, end, backend, decode, calls);
    var r := Respond(records[0], size, end, backend, decode, calls);
    CallsAfterFirst(k, records, size, end, backend, decode, calls);
    if k == 0 {
      NoCallsBefore(records, size, end, backend, decode, calls);
      NoCallsBefore(records[1..], size, end, backend, decode, r.value.1);
    } else {
      CallsAfterFirst(k - 1, records, size, end, backend, decode, calls);
      CallsBeforeNext(k - 1, records[1..], size, end, backend, decode, r.value.1);
      assert records[k] == records[1..][k - 1];
    }
  }

  lemma CallsAfterFirst(k: nat, records: seq<string>, size: nat, end: StreamEnd, backend: Backend, decode: Decoder, calls: seq<Call>)
    requires size >= 1 && k < |records| && Respond(records[0], size, end, backend, decode, calls).Some?
    ensures CallsBefore(k + 1, records, size, end, backend, decode, calls)
         == CallsBefore(k, records[1..], size, end, backend, decode,
              Respond(records[0], size, end, backend, decode, calls).value.1)
  {
    hide Respond;
  }

  lemma OnlyLastCutOff(records: seq<string>, end: StreamEnd, k: nat)
    requires StreamShaped(records) && k < |records|
    requires k == |records| - 1 ==> !CutOff(records[k], end)
    ensures forall j :: 0 <= j <= k ==> records[j] != "" && !CutOff(records[j], end)
  {
  }

  /** What line `k` of the output owes to record `k`, from the calls made before it: the
      literal refusal of an oversized record, in the form of what was seen of it and
      without a call, or a line that parses to the answer to the record. */
  ghost predicate LineFor(record: string, line: string, size: nat, backend: Backend, decode: Decoder, before: seq<Call>, after: seq<Call>)
    requires size >= 1
  {
    if |record| > 0x10_0000 then
      after == before && line == TooLargeLine(LooksLikeJSON(SeenPart(record, size)))
    else
      var (response, calls) := Answer(backend, decode, before, record);
      after == calls && ParseResponse(line) == Some(response)
  }

  /** The whole service, for every input and buffer size: the output splits at line feeds
      into one line for each record of the input, and each line is what its record is owed,
      from the backend calls of the records before it. Only a last record cut off by a
      stream fault is left out. */
  lemma ClientReadsResponses(input: string, size: nat, end: StreamEnd, backend: Backend, decode: Decoder)
    requires size >= 1
    ensures var records := Records(input);
            var n := |records|;
            var lines := Split(Frames(Serve(records, size, end, backend, decode, []).0), '\n');
            && |lines| == (if n > 0 && CutOff(records[n - 1], end) then n else n + 1)
            && lines[|lines| - 1] == ""
            && CallsBefore(0, records, size, end, backend, decode, []) == []
            && forall k :: 0 <= k < |lines| - 1 ==>
                 LineFor(records[k], lines[k], size, backend, decode,
                   CallsBefore(k, records, size, end, backend, decode, []),
                   CallsBefore(k + 1, records, size, end, backend, decode, []))
  {
    hide Records, Split, Frames, Serve, Respond, WellFormed, ParseResponse, CallsBefore, CutOff, LineFor;
    var records := Records(input);
    RecordsShaped(input);
    ResponsePerRecord(records, size, end, backend, decode, []);
    var responses := Serve(records, size, end, backend, decode, []).0;
    FramesRoundTrip(responses);
    NoCallsBefore(records, size, end, backend, decode, []);
    forall k | 0 <= k < |responses|
      ensures LineFor(records[k], Split(Frames(responses), '\n')[k], size, backend, decode,
        CallsBefore(k, records, size, end, backend, decode, []),
        CallsBefore(k + 1, records, size, end, backend, decode, []))
    {
      var before := CallsBefore(k, records, size, end, backend, decode, []);
      OnlyLastCutOff(records, end, k);
      CallsBeforeNext(k, records, size, end, backend, decode, []);
      OwedLine(records[k], Split(Frames(responses), '\n')[k], size, end, backend, decode, before);
    }
  }

  lemma NoCallsBefore(records: seq<string>, size: nat, end: StreamEnd, backend: Backend, decode: Decoder, calls: seq<Call>)
    requires size >= 1
    ensures CallsBefore(0, records, size, end, backend, decode, calls) == calls
  {
  }

  lemma OwedLine(record: string, line: string, size: nat, end: StreamEnd, backend: Backend, decode: Decoder, before: seq<Call>)
    requires size >= 1 && record != ""
    requires var r := Respond(record, size, end, backend, decode, before);
             r.Some? && line == Render(r.value.0) && ParseResponse(line) == Some(r.value.0)
    ensures LineFor(record, line, size, backend, decode, before, Respond(record, size, end, backend, decode, before).value.1)
  {
    hide Respond, Render, ParseResponse, Answer, LooksLikeJSON, SeenPart, TooLargeResponse, CutOff, TooLargeLine;
    RespondsUnlessCutOff(record, size, end, backend, decode, before);
    if |record| > LINE_MAX {
      TooLargeText(LooksLikeJSON(SeenPart(record, size)));
    }
  }

  predicate ClassifiedEarly(record: string) {
    |record| > LINE_MAX ==> FirstNonBlank(record) <= LINE_MAX || FirstNonBlank(record) == |record|
  }

  /** The buffer size has no influence unless an oversized record hides its first
      non-blank character behind more than 2^20 blanks. */
  lemma {:induction false} BufferSizeIrrelevant(records: seq<string>, size1: nat, size2: nat, end: StreamEnd, backend: Backend, decode: Decoder, calls: seq<Call>)
    requires size1 >= 1 && size2 >= 1
    requires forall k :: 0 <= k < |records| ==> ClassifiedEarly(records[k])
    ensures Serve(records, size1, end, backend, decode, calls) == Serve(records, size2, end, backend, decode, calls)
  {
    hide Answer, Seen, LooksLikeJSON, TooLargeResponse, TrimRight, FirstNonBlank;
    if records != [] {
      if |records[0]| > LINE_MAX {
        OversizedVerdictIndependent(records[0], size1, end);
        OversizedVerdictIndependent(records[0], size2, end);
      }
      var r := Respond(records[0], size1, end, backend, decode, calls);
      assert r == Respond(records[0], size2, end, backend, decode, calls);
      if r.Some? {
        BufferSizeIrrelevant(records[1..], size1, size2, end, backend, decode, r.value.1);
      }
    }
  }

  /** The form of the answer to an oversized record against the form its content would
      have got: they differ exactly when vertical tabs or form feeds, which only the
      handler trims, stand before an opening brace. */
  lemma ClassifierMatchesDispatch(record: string)
    ensures LooksLikeJSON(record) == LooksJSON(record)
       <==> !(LooksJSON(record) && record[FirstNonBlank(record)] in {11 as char, 12 as char})
    ensures LooksJSON(record) ==> FirstNonBlank(record) < |record|
  {
    hide TrimSpace, FirstNonBlank, LooksLikeJSON;
    LooksLikeJSONAt(record);
    DispatchCharacter(record);
  }

  /** Position of the first character that is not white space. */
  function FirstNonSpace(s: string): (i: nat)
    ensures i <= |s| && (i < |s| ==> s[i] !in SPACE)
    ensures forall k :: 0 <= k < i ==> s[k] in SPACE
  {
    if s == "" || s[0] !in SPACE then 0 else 1 + FirstNonSpace(s[1..])
  }

  lemma FirstNonSpaceIs(s: string, k: nat)
    requires k < |s| && s[k] !in SPACE
    requires forall j :: 0 <= j < k ==> s[j] in SPACE
    ensures FirstNonSpace(s) == k
  {
  }

  lemma FirstNonSpaceOfBlank(s: string)
    requires forall c :: c in s ==> c in SPACE
    ensures FirstNonSpace(s) == |s|
  {
    hide FirstNonSpace;
    assert forall j :: 0 <= j < |s| ==> s[j] in s;
  }

  lemma TrimSpaceStart(s: string)
    ensures TrimSpace(s) != "" ==> FirstNonSpace(s) < |s| && TrimSpace(s)[0] == s[FirstNonSpace(s)]
    ensures TrimSpace(s) == "" ==> FirstNonSpace(s) == |s|
  {
    hide TrimSpace, FirstNonSpace;
    if TrimSpace(s) == "" {
      FirstNonSpaceOfBlank(s);
    } else {
      TrimSpaceCuts(s);
      var k :| 0 <= k < |s| && TrimSpace(s) <= s[k..] && forall j :: 0 <= j < k ==> s[j] in SPACE;
      assert TrimSpace(s)[0] == s[k..][0] == s[k];
      FirstNonSpaceIs(s, k);
    }
  }

  lemma DispatchCharacter(s: string)
    ensures LooksJSON(s) <==> FirstNonSpace(s) < |s| && s[FirstNonSpace(s)] == '{'
    ensures FirstNonBlank(s) <= FirstNonSpace(s)
    ensures FirstNonBlank(s) == FirstNonSpace(s) || s[FirstNonBlank(s)] in SPACE
  {
    hide TrimSpace, FirstNonBlank, FirstNonSpace;
    TrimSpaceStart(s);
    var b, i := FirstNonBlank(s), FirstNonSpace(s);
    assert i < |s| ==> !IsBlank(s[i]);
    assert forall c :: IsBlank(c) ==> c in SPACE;
  }
}

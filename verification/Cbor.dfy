/** The attestation request on the wire (nsm.go): the subset of CBOR it uses, after
    sections 3.1 and 3.3 of RFC 8949, and the size limit of the device. */
module Cbor {
  import opened Text
  import opened Ipv4
  import opened Hex
  import opened NsmProtocol

  datatype Item = TextItem(text: seq<byte>) | BytesItem(bytes: seq<byte>) | Null | MapItem(entries: seq<Entry>)

  datatype Entry = Entry(key: Item, value: Item)

  // -------------------------------------------------------------------- encoding

  type major = m: nat | m < 8

  /** Initial byte and length, in the shortest form. */
  function Head(m: major, n: nat): seq<byte>
    requires n < 0x1_0000
  {
    if n < 24 then [32 * m + n]
    else if n < 256 then [32 * m + 24, n]
    else [32 * m + 25, n / 256, n % 256]
  }

  predicate Encodable(x: Item) {
    match x
    case TextItem(b) => |b| < 0x1_0000
    case BytesItem(b) => |b| < 0x1_0000
    case Null => true
    case MapItem(es) => |es| < 0x1_0000 && forall e :: e in es ==> Encodable(e.key) && Encodable(e.value)
  }

  predicate AllEncodable(es: seq<Entry>) {
    forall k :: 0 <= k < |es| ==> Encodable(es[k].key) && Encodable(es[k].value)
  }

  function Encode(x: Item): (r: seq<byte>)
    requires Encodable(x)
    ensures r != []
    decreases x
  {
    match x
    case TextItem(b) => Head(3, |b|) + b
    case BytesItem(b) => Head(2, |b|) + b
    case Null => [0xf6]
    case MapItem(es) => Head(5, |es|) + EncodeEntries(es)
  }

  function EncodeEntries(es: seq<Entry>): seq<byte>
    requires AllEncodable(es)
    decreases es
  {
    if es == [] then []
    else
      assert AllEncodable(es[1..]);
      EncodeEntry(es[0]) + EncodeEntries(es[1..])
  }

  function EncodeEntry(e: Entry): seq<byte>
    requires Encodable(e.key) && Encodable(e.value)
    decreases e
  {
    Encode(e.key) + Encode(e.value)
  }

  /** Encoded items in numbers (section 3.1 of RFC 8949): byte strings from 0x40, text from
      0x60, maps from 0xa0, the length in the initial byte below 24, else in one or two
      bytes after it, the high byte first; null is 0xf6. */
  lemma EncodedForms(x: Item)
    requires Encodable(x)
    ensures x.BytesItem? ==> Encode(x) == Tagged(0x40, |x.bytes|) + x.bytes
    ensures x.TextItem? ==> Encode(x) == Tagged(0x60, |x.text|) + x.text
    ensures x.MapItem? ==> Encode(x) == Tagged(0xa0, |x.entries|) + EncodeEntries(x.entries)
    ensures x.Null? ==> Encode(x) == [0xf6]
  {
  }

  function Tagged(tag: byte, n: nat): seq<byte>
    requires tag <= 0xa0 && n < 0x1_0000
  {
    if n < 24 then [tag + n]
    else if n <= 0xff then [tag + 0x18, n]
    else [tag + 0x19, n / 0x100, n % 0x100]
  }

  // -------------------------------------------------------------------- decoding

  /** Major type, length and the bytes after them. */
  function DecodeHead(s: seq<byte>): (r: Option<(major, nat, seq<byte>)>)
    ensures r.Some? ==> |r.value.2| < |s|
  {
    if s == [] then None
    else
      var m, info := s[0] / 32, s[0] % 32;
      if info < 24 then Some((m, info, s[1..]))
      else if info == 24 && |s| >= 2 then Some((m, s[1], s[2..]))
      else if info == 25 && |s| >= 3 then Some((m, 256 * (s[1] as nat) + (s[2] as nat), s[3..]))
      else None
  }

  /** The first item of `s` and the bytes after it. */
  function Decode(s: seq<byte>): (r: Option<(Item, seq<byte>)>)
    ensures r.Some? ==> |r.value.1| < |s|
    decreases |s|, 0
  {
    if s != [] && s[0] == 0xf6 then Some((Null, s[1..]))
    else
      match DecodeHead(s)
      case None => None
      case Some((m, n, rest)) =>
        if m == 2 && n <= |rest| then Some((BytesItem(rest[..n]), rest[n..]))
        else if m == 3 && n <= |rest| then Some((TextItem(rest[..n]), rest[n..]))
        else if m == 5 then
          match DecodeEntries(n, rest)
          case None => None
          case Some((es, tail)) => Some((MapItem(es), tail))
        else None
  }

  function DecodeEntries(n: nat, s: seq<byte>): (r: Option<(seq<Entry>, seq<byte>)>)
    ensures r.Some? ==> |r.value.1| <= |s|
    decreases |s|, 1
  {
    if n == 0 then Some(([], s))
    else
      match Decode(s)
      case None => None
      case Some((key, s1)) =>
        match Decode(s1)
        case None => None
        case Some((value, s2)) =>
          match DecodeEntries(n - 1, s2)
          case None => None
          case Some((es, tail)) => Some(([Entry(key, value)] + es, tail))
  }

  lemma HeadRoundTrip(m: major, n: nat, rest: seq<byte>)
    requires n < 0x1_0000
    ensures DecodeHead(Head(m, n) + rest) == Some((m, n, rest))
    ensures Head(m, n)[0] / 32 == m
  {
    var s := Head(m, n) + rest;
    if n < 24 {
      assert s[1..] == rest;
    } else if n < 256 {
      assert s[1] == n && s[2..] == rest;
    } else {
      assert s[1] == n / 256 && s[2] == n % 256 && s[3..] == rest;
    }
  }

  /** Whatever is encoded decodes to itself, and nothing after it is touched. */
  lemma {:induction false} RoundTrip(x: Item, rest: seq<byte>)
    requires Encodable(x)
    ensures Decode(Encode(x) + rest) == Some((x, rest))
    decreases x
  {
    hide Head, DecodeHead;
    match x {
      case Null =>
        assert ([0xf6] + rest)[1..] == rest;
      case TextItem(b) =>
        HeadRoundTrip(3, |b|, b + rest);
        PayloadFollows(3, |b|, b, rest);
      case BytesItem(b) =>
        HeadRoundTrip(2, |b|, b + rest);
        PayloadFollows(2, |b|, b, rest);
      case MapItem(es) =>
        var body := EncodeEntries(es);
        HeadRoundTrip(5, |es|, body + rest);
        PayloadFollows(5, |es|, body, rest);
        EntriesRoundTrip(es, rest);
    }
  }

  lemma PayloadFollows(m: major, n: nat, body: seq<byte>, rest: seq<byte>)
    requires n < 0x1_0000 && m < 7
    ensures Head(m, n) + body + rest == Head(m, n) + (body + rest)
    ensures (Head(m, n) + body + rest)[0] != 0xf6
    ensures (body + rest)[..|body|] == body && (body + rest)[|body|..] == rest
  {
  }

  lemma {:induction false} EntriesRoundTrip(es: seq<Entry>, rest: seq<byte>)
    requires AllEncodable(es)
    ensures DecodeEntries(|es|, EncodeEntries(es) + rest) == Some((es, rest))
    decreases es
  {
    hide Decode, Encode, EncodeEntry;
    if es == [] {
      assert EncodeEntries(es) + rest == rest;
    } else {
      var tail := EncodeEntries(es[1..]) + rest;
      EntryRoundTrip(es[0], tail);
      EntriesRoundTrip(es[1..], rest);
      assert EncodeEntries(es) + rest == EncodeEntry(es[0]) + tail;
      assert [es[0]] + es[1..] == es;
    }
  }

  lemma {:induction false} EntryRoundTrip(e: Entry, rest: seq<byte>)
    requires Encodable(e.key) && Encodable(e.value)
    ensures var key := Decode(EncodeEntry(e) + rest);
            && key.Some? && key.value.0 == e.key
            && Decode(key.value.1) == Some((e.value, rest))
    decreases e
  {
    hide Decode, Encode;
    RoundTrip(e.key, Encode(e.value) + rest);
    RoundTrip(e.value, rest);
    assert EncodeEntry(e) + rest == Encode(e.key) + (Encode(e.value) + rest);
  }

  // ------------------------------------------------------ the attestation request

  const REQUEST_MAX_SIZE := 0x1000
  const FIELD_MAX_SIZE := 2048

  function Ascii(s: string): (b: seq<byte>)
    requires forall k :: 0 <= k < |s| ==> s[k] < 128 as char
    ensures |b| == |s|
  {
    seq(|s|, k requires 0 <= k < |s| => s[k] as int)
  }

  const ATTESTATION: seq<byte> := [65, 116, 116, 101, 115, 116, 97, 116, 105, 111, 110]
  const PUBLIC_KEY: seq<byte> := [112, 117, 98, 108, 105, 99, 95, 107, 101, 121]
  const NONCE: seq<byte> := [110, 111, 110, 99, 101]
  const USER_DATA: seq<byte> := [117, 115, 101, 114, 95, 100, 97, 116, 97]

  lemma KeysAreAscii()
    ensures ATTESTATION == Ascii("Attestation") && PUBLIC_KEY == Ascii("public_key")
    ensures NONCE == Ascii("nonce") && USER_DATA == Ascii("user_data")
  {
  }

  /** A request whose optional fields may be absent. */
  type AttestationRequest = c: Call | c.Attest? witness Attest([], None, None)

  /** The codes of field faults, in the order of the checks. */
  const FIELD_CODES: seq<string> :=
    ["missing_public_key", "public_key_too_large", "nonce_too_large", "user_data_too_large"]

  predicate FieldFault(req: AttestationRequest, k: nat) {
    || (k == 0 && req.publicKey == [])
    || (k == 1 && |req.publicKey| > FIELD_MAX_SIZE)
    || (k == 2 && req.nonce.Some? && |req.nonce.value| > FIELD_MAX_SIZE)
    || (k == 3 && req.userData.Some? && |req.userData.value| > FIELD_MAX_SIZE)
  }

  /** A request is refused with the code of its first fault. */
  lemma FirstFaultReported(req: AttestationRequest, k: nat)
    requires k < |FIELD_CODES|
    ensures ValidateAttestationRequest(req) == Some(FIELD_CODES[k])
       <==> FieldFault(req, k) && forall j: nat :: j < k ==> !FieldFault(req, j)
  {
    hide ValidCode, ValidateAttestationRequest;
    FieldCodesDiffer();
    VerdictOnFields(req);
  }

  lemma VerdictOnFields(req: AttestationRequest)
    ensures var v := ValidateAttestationRequest(req);
            && (FieldFault(req, 0) ==> v == Some(FIELD_CODES[0]))
            && (!FieldFault(req, 0) && FieldFault(req, 1) ==> v == Some(FIELD_CODES[1]))
            && (!FieldFault(req, 0) && !FieldFault(req, 1) && FieldFault(req, 2) ==> v == Some(FIELD_CODES[2]))
            && (!FieldFault(req, 0) && !FieldFault(req, 1) && !FieldFault(req, 2) ==>
                  v == if FieldFault(req, 3) then Some(FIELD_CODES[3]) else None)
  {
    hide ValidCode;
  }

  lemma FieldCodesDiffer()
    ensures |FIELD_CODES[0]| == 18 && |FIELD_CODES[1]| == 20 && |FIELD_CODES[2]| == 15 && |FIELD_CODES[3]| == 19
  {
  }

  function ValidateAttestationRequest(req: AttestationRequest): (r: Option<string>)
    ensures r == None <==> !FieldFault(req, 0) && !FieldFault(req, 1) && !FieldFault(req, 2) && !FieldFault(req, 3)
    ensures r == None <==> 1 <= |req.publicKey| <= 2048 && OptionalSizeOk(req.nonce) && OptionalSizeOk(req.userData)
    ensures r.Some? ==> ValidCode(r.value)
  {
    RequestCodesValid();
    hide ValidCode;
    if |req.publicKey| == 0 then Some("missing_public_key")
    else if |req.publicKey| > FIELD_MAX_SIZE then Some("public_key_too_large")
    else if !OptionalSizeOk(req.nonce) then Some("nonce_too_large")
    else if !OptionalSizeOk(req.userData) then Some("user_data_too_large")
    else None
  }

  lemma RequestCodesValid()
    ensures ValidCode("missing_public_key") && ValidCode("public_key_too_large")
    ensures ValidCode("nonce_too_large") && ValidCode("user_data_too_large")
  {
  }

  predicate OptionalSizeOk(o: Option<seq<byte>>) {
    o.Some? ==> |o.value| <= FIELD_MAX_SIZE
  }

  function OptionalItem(o: Option<seq<byte>>): Item {
    match o case None => Null case Some(b) => BytesItem(b)
  }

  /** The three fields of the inner map. */
  function RequestFields(req: AttestationRequest): seq<Entry> {
    [ Entry(TextItem(USER_DATA), OptionalItem(req.userData)),
      Entry(TextItem(NONCE), OptionalItem(req.nonce)),
      Entry(TextItem(PUBLIC_KEY), BytesItem(req.publicKey)) ]
  }

  /** An order in which the encoder may walk the three-field map. */
  predicate IsOrder(order: seq<nat>) {
    && |order| == 3
    && order[0] < 3 && order[1] < 3 && order[2] < 3
    && order[0] != order[1] && order[0] != order[2] && order[1] != order[2]
  }

  function Ordered(req: AttestationRequest, order: seq<nat>): seq<Entry>
    requires IsOrder(order)
  {
    var f := RequestFields(req);
    [f[order[0]], f[order[1]], f[order[2]]]
  }

  function Message(req: AttestationRequest, order: seq<nat>): Item
    requires IsOrder(order)
  {
    MapItem([Entry(TextItem(ATTESTATION), MapItem(Ordered(req, order)))])
  }

  /** What a map says under a text key. */
  function MapGet(es: seq<Entry>, key: seq<byte>): Option<Item> {
    if es == [] then None
    else if es[0].key == TextItem(key) then Some(es[0].value)
    else MapGet(es[1..], key)
  }

  /** The size of a value: its head and its bytes. */
  function ValueSize(x: Item): nat
    requires x.Null? || (x.BytesItem? && |x.bytes| < 0x1_0000)
  {
    match x
    case Null => 1
    case BytesItem(b) => |b| + (if |b| < 24 then 1 else if |b| < 256 then 2 else 3)
  }

  predicate Sized(req: AttestationRequest) {
    ValidateAttestationRequest(req) == None
  }

  function PayloadSize(req: AttestationRequest): nat
    requires Sized(req)
  {
    ValueSize(BytesItem(req.publicKey)) + ValueSize(OptionalItem(req.nonce)) + ValueSize(OptionalItem(req.userData))
  }

  lemma MessageEncodable(req: AttestationRequest, order: seq<nat>)
    requires Sized(req) && IsOrder(order)
    ensures AllEncodable(Ordered(req, order)) && Encodable(Message(req, order))
  {
    hide ValidateAttestationRequest;
  }

  function EntrySize(req: AttestationRequest, k: nat): nat
    requires Sized(req) && k < 3
  {
    if k == 0 then 10 + ValueSize(OptionalItem(req.userData))
    else if k == 1 then 6 + ValueSize(OptionalItem(req.nonce))
    else 11 + ValueSize(BytesItem(req.publicKey))
  }

  lemma FieldSize(req: AttestationRequest, k: nat)
    requires Sized(req) && k < 3
    ensures var e := RequestFields(req)[k];
            Encodable(e.key) && Encodable(e.value) && |EncodeEntry(e)| == EntrySize(req, k)
  {
    hide ValidateAttestationRequest;
  }

  lemma ThreeEntries(es: seq<Entry>)
    requires |es| == 3 && AllEncodable(es)
    ensures |EncodeEntries(es)| == |EncodeEntry(es[0])| + |EncodeEntry(es[1])| + |EncodeEntry(es[2])|
  {
    hide Encode, Encodable, EncodeEntry;
    var last := es[2..];
    assert last[1..] == [];
    assert EncodeEntries(last) == EncodeEntry(es[2]) + EncodeEntries([]);
    assert es[1..][1..] == last;
    assert EncodeEntries(es[1..]) == EncodeEntry(es[1]) + EncodeEntries(last);
  }

  lemma OneEntry(e: Entry)
    requires Encodable(e.key) && Encodable(e.value)
    ensures Encodable(MapItem([e]))
    ensures |Encode(MapItem([e]))| == 1 + |EncodeEntry(e)|
  {
    hide EncodeEntry;
    assert [e][1..] == [];
    assert EncodeEntries([e]) == EncodeEntry(e) + EncodeEntries([]);
  }

  /** In every iteration order the message is 41 bytes longer than its three values. */
  lemma MessageSize(req: AttestationRequest, order: seq<nat>)
    requires Sized(req) && IsOrder(order) && Encodable(Message(req, order))
    ensures |Encode(Message(req, order))| == 41 + PayloadSize(req)
  {
    hide ValidateAttestationRequest, EncodeEntries, Sized, ValueSize, EncodeEntry;
    MessageEncodable(req, order);
    var es := Ordered(req, order);
    ThreeEntries(es);
    FieldSize(req, order[0]);
    FieldSize(req, order[1]);
    FieldSize(req, order[2]);
    assert |Encode(MapItem(es))| == 1 + |EncodeEntries(es)|;
    OuterSize(TextItem(ATTESTATION), MapItem(es));
  }

  lemma OuterSize(key: Item, value: Item)
    requires key == TextItem(ATTESTATION) && Encodable(value)
    ensures Encodable(MapItem([Entry(key, value)]))
    ensures |Encode(MapItem([Entry(key, value)]))| == 13 + |Encode(value)|
  {
    OneEntry(Entry(key, value));
  }

  /** In every iteration order the device decodes the message to the same three values,
      with null exactly for an absent field. */
  lemma MessageMeaning(req: AttestationRequest, order: seq<nat>, rest: seq<byte>)
    requires Sized(req) && IsOrder(order) && Encodable(Message(req, order))
    ensures Decode(Encode(Message(req, order)) + rest) == Some((Message(req, order), rest))
    ensures var inner := Ordered(req, order);
            && Message(req, order) == MapItem([Entry(TextItem(Ascii("Attestation")), MapItem(inner))])
            && |inner| == 3
            && MapGet(inner, Ascii("public_key")) == Some(BytesItem(req.publicKey))
            && MapGet(inner, Ascii("nonce")) == Some(if req.nonce.None? then Null else BytesItem(req.nonce.value))
            && MapGet(inner, Ascii("user_data")) == Some(if req.userData.None? then Null else BytesItem(req.userData.value))
  {
    hide Encode, Decode, ValidateAttestationRequest, Encodable, Sized;
    KeysAreAscii();
    hide Ascii;
    RoundTrip(Message(req, order), rest);
    KeysDiffer();
    var es := Ordered(req, order);
    MapGetOfThree(es, PUBLIC_KEY);
    MapGetOfThree(es, NONCE);
    MapGetOfThree(es, USER_DATA);
  }

  lemma KeysDiffer()
    ensures PUBLIC_KEY != NONCE && PUBLIC_KEY != USER_DATA && NONCE != USER_DATA
  {
    assert |PUBLIC_KEY| == 10 && |NONCE| == 5 && |USER_DATA| == 9;
  }

  lemma MapGetOfThree(es: seq<Entry>, key: seq<byte>)
    requires |es| == 3
    ensures MapGet(es, key) ==
      if es[0].key == TextItem(key) then Some(es[0].value)
      else if es[1].key == TextItem(key) then Some(es[1].value)
      else if es[2].key == TextItem(key) then Some(es[2].value)
      else None
  {
    var last := es[2..];
    assert last[1..] == [];
    assert MapGet(last, key) == if es[2].key == TextItem(key) then Some(es[2].value) else None;
    assert es[1..][1..] == last;
    assert MapGet(es[1..], key) == if es[1].key == TextItem(key) then Some(es[1].value) else MapGet(last, key);
  }

  // --------------------------------------------------------------- the size limit

  datatype Submission = Submitted(request: seq<byte>) | Rejected(reason: string)

  /** Validation, encoding and the size check before the device is called. */
  function Submit(req: AttestationRequest, order: seq<nat>): Submission
    requires IsOrder(order)
  {
    match ValidateAttestationRequest(req)
    case Some(code) => Rejected(code)
    case None =>
      MessageEncodable(req, order);
      var request := Encode(Message(req, order));
      if |request| == 0 then Rejected("empty request")
      else if |request| > REQUEST_MAX_SIZE then
        Rejected("request too large (" + Decimal(|request|) + " > " + Decimal(REQUEST_MAX_SIZE) + ")")
      else Submitted(request)
  }

  /** The device is called exactly when each field is within its limit and the three
      values together leave room for the 41 bytes around them. A client told of a field
      limit gets the code; one over the message limit only sees `backend_error`. */
  lemma SubmitExactly(req: AttestationRequest, order: seq<nat>)
    requires IsOrder(order)
    ensures Submit(req, order).Submitted? <==> Sized(req) && 41 + PayloadSize(req) <= 4096
    ensures Submit(req, order).Submitted? ==>
      Encodable(Message(req, order)) && Submit(req, order).request == Encode(Message(req, order))
    ensures Submit(req, order).Rejected? ==>
      ProtocolError(Submit(req, order).reason)
        == (if Sized(req) then "backend_error" else ValidateAttestationRequest(req).value)
  {
    hide Encode, Encodable, ValidateAttestationRequest, PayloadSize, Decimal, Message, ProtocolError, ValidCode;
    if Sized(req) {
      MessageEncodable(req, order);
      MessageSize(req, order);
      SpacedReason("request too large (", Decimal(|Encode(Message(req, order))|) + " > " + Decimal(REQUEST_MAX_SIZE) + ")");
      var n := |Encode(Message(req, order))|;
      assert "request too large (" + (Decimal(n) + " > " + Decimal(REQUEST_MAX_SIZE) + ")")
          == "request too large (" + Decimal(n) + " > " + Decimal(REQUEST_MAX_SIZE) + ")";
    }
  }

  lemma SpacedReason(head: string, tail: string)
    requires ' ' in head
    ensures ProtocolError(head + tail) == "backend_error"
  {
    assert ' ' in head + tail && !CodeChar(' ');
  }

  /** The field limits alone do not keep a message within the device's limit. */
  lemma FieldLimitsDoNotSuffice(key: seq<byte>, nonce: seq<byte>, order: seq<nat>)
    requires IsOrder(order) && |key| == 2048 && |nonce| == 2048
    ensures Sized(Attest(key, Some(nonce), None))
    ensures !Submit(Attest(key, Some(nonce), None), order).Submitted?
  {
    hide Submit;
    SubmitExactly(Attest(key, Some(nonce), None), order);
  }
}

/** Line framing of the NSM proxy (nsm.go): bounded records read through a buffer of any
    size, against the simple reading that splits the stream at line feeds. */
module NsmFraming {
  import opened Text

  const LINE_MAX: nat := 0x10_0000

  /** How the input stream ends once its bytes are used up. */
  datatype StreamEnd = EndOfFile | Fault

  datatype ReadError = NoError | BufferFull | AtEnd(end: StreamEnd)

  predicate Terminated(record: string) {
    record != "" && record[|record| - 1] == '\n'
  }

  /** A line feed can only be the last character of a record, and one without it is the
      last of the stream. */
  ghost predicate IsRecordOf(record: string, rest: string) {
    '\n' !in record[..if record == "" then 0 else |record| - 1] &&
    (Terminated(record) || rest == "")
  }

  lemma Joined(a: string, b: string, rest: string)
    requires '\n' !in a && IsRecordOf(b, rest)
    ensures IsRecordOf(a + b, rest)
    ensures Terminated(b) ==> Terminated(a + b)
  {
    if b == "" {
      assert a + b == a;
    } else {
      assert (a + b)[..|a + b| - 1] == a + b[..|b| - 1];
    }
  }

  /** The buffered reader: bytes already read ahead, and the rest of the stream, which
      arrives in pieces of any size. */
  class Reader {
    const size: nat
    const end: StreamEnd
    var buffered: string
    var stream: string
    var ended: bool

    ghost predicate Valid()
      reads this
    {
      size >= 1 && |buffered| <= size && (ended ==> stream == "")
    }

    function Unread(): string
      reads this
    {
      buffered + stream
    }

    constructor (size: nat, input: string, end: StreamEnd)
      requires size >= 1
      ensures Valid() && Unread() == input && this.size == size && this.end == end
    {
      this.size, this.end := size, end;
      buffered, stream, ended := "", input, false;
    }

    /** One read from the stream into the free part of the buffer. */
    method Fill()
      requires Valid() && !ended && |buffered| < size
      modifies this
      ensures Valid() && Unread() == old(Unread())
      ensures ended || |stream| < |old(stream)|
    {
      if stream == "" {
        ended := true;
        return;
      }
      var n: nat :| 1 <= n <= |stream| && |buffered| + n <= size;
      buffered, stream := buffered + stream[..n], stream[n..];
      var last: bool := *;
      ended := last && stream == "";
    }

    /** `bufio.Reader.ReadSlice('\n')`. */
    method ReadSlice() returns (fragment: string, err: ReadError)
      requires Valid()
      modifies this
      ensures Valid() && fragment + Unread() == old(Unread())
      ensures |fragment| <= size
      ensures match err
              case NoError => Terminated(fragment) && IsRecordOf(fragment, Unread())
              case BufferFull => |fragment| == size && '\n' !in fragment
              case AtEnd(e) => e == end && Unread() == "" && '\n' !in fragment
    {
      while true
        invariant Valid() && Unread() == old(Unread())
        decreases |stream|, !ended
      {
        if '\n' in buffered {
          var i := LineFeedIn(buffered);
          fragment := buffered[..i + 1];
          buffered := buffered[i + 1..];
          return fragment, NoError;
        }
        if ended {
          fragment, buffered := buffered, "";
          ended := false;
          return fragment, AtEnd(end);
        }
        if |buffered| >= size {
          fragment, buffered := buffered, "";
          return fragment, BufferFull;
        }
        Fill();
      }
    }
  }

  method LineFeedIn(s: string) returns (i: nat)
    requires '\n' in s
    ensures i < |s| && s[i] == '\n' && '\n' !in s[..i]
  {
    i := 0;
    while s[i] != '\n'
      invariant i < |s| && '\n' !in s[..i] && '\n' in s[i..]
      decreases |s| - i
    {
      i := i + 1;
    }
  }

  // --------------------------------------------------- the simple specification

  /** The records of a stream: its pieces between line feeds, each with its line feed,
      and a last one without if the stream does not end in a line feed. */
  function Records(s: string): seq<string> {
    var pieces := Split(s, '\n');
    var n := |pieces| - 1;
    seq(n, k requires 0 <= k < n => pieces[k] + "\n") + if pieces[n] == "" then [] else [pieces[n]]
  }

  /** What reading one record gives. */
  datatype Line = Line(text: string) | TooLarge(jsonLike: bool) | Finished | Broken

  /** The characters the classifier of oversized lines skips. */
  predicate IsBlank(c: char) {
    c == ' ' || c == '\t' || c == '\r' || c == '\n'
  }

  /** Whether the first character that is not blank is an opening brace. */
  function LooksLikeJSON(s: string): bool {
    if s == "" then false
    else if IsBlank(s[0]) then LooksLikeJSON(s[1..])
    else s[0] == '{'
  }

  /** How much of an oversized record has been seen when it is found too large: whole
      buffers, up to the first that crosses the limit. */
  function Seen(length: nat, size: nat): nat
    requires size >= 1
  {
    var whole := (LINE_MAX / size + 1) * size;
    if length < whole then length else whole
  }

  lemma SeenBounds(length: nat, size: nat)
    requires size >= 1 && length > LINE_MAX
    ensures LINE_MAX < Seen(length, size) <= length
  {
    WholeBuffersFit(size);
  }

  /** What has been seen of an oversized record when it is found too large. */
  function SeenPart(record: string, size: nat): string
    requires size >= 1 && |record| > LINE_MAX
  {
    SeenBounds(|record|, size);
    record[..Seen(|record|, size)]
  }

  function Classify(record: string, size: nat, end: StreamEnd): Line
    requires size >= 1
  {
    if |record| > LINE_MAX then
      SeenBounds(|record|, size);
      TooLarge(LooksLikeJSON(record[..Seen(|record|, size)]))
    else if Terminated(record) then Line(TrimRight(record, CRLF))
    else if end == Fault then Broken
    else if record == "" then Finished
    else Line(record)
  }

  // ----------------------------------------------------------------- the code

  /** Skips what is left of a record after the fragment that ended with `err`. */
  method DiscardRemainder(reader: Reader, err: ReadError) returns (ghost skipped: string)
    requires reader.Valid()
    modifies reader
    ensures reader.Valid()
    ensures skipped + reader.Unread() == old(reader.Unread())
    ensures if err == BufferFull then IsRecordOf(skipped, reader.Unread()) else skipped == ""
  {
    hide IsRecordOf, Terminated;
    var e := err;
    skipped := "";
    while e == BufferFull
      invariant reader.Valid()
      invariant skipped + reader.Unread() == old(reader.Unread())
      invariant e == BufferFull ==> '\n' !in skipped
      invariant err == BufferFull && e != BufferFull ==> IsRecordOf(skipped, reader.Unread())
      invariant err != BufferFull ==> skipped == "" && e == err
      decreases |reader.Unread()|, if e == BufferFull then 1 else 0
    {
      var fragment;
      fragment, e := reader.ReadSlice();
      if e != BufferFull {
        Joined(skipped, fragment, reader.Unread());
      }
      skipped := skipped + fragment;
    }
  }

  /** The bytes kept of the record being read. They are added to only through `Append`,
      and never exceed the limit. */
  class LineBuffer {
    var text: string

    ghost predicate Valid()
      reads this
    {
      |text| <= LINE_MAX
    }

    constructor ()
      ensures Valid() && text == ""
    {
      text := "";
    }

    method Append(fragment: string)
      requires Valid() && |text| + |fragment| <= LINE_MAX
      modifies this
      ensures Valid() && text == old(text) + fragment
    {
      text := text + fragment;
    }
  }

  function Concat(parts: seq<string>): string {
    if parts == [] then "" else Concat(parts[..|parts| - 1]) + parts[|parts| - 1]
  }

  predicate AllBlank(s: string) {
    forall c :: c in s ==> IsBlank(c)
  }

  /** Blanks in front do not matter, and the first other character decides. */
  lemma {:induction false} LooksLikeJSONPast(blanks: string, s: string)
    requires AllBlank(blanks)
    ensures LooksLikeJSON(blanks + s) == LooksLikeJSON(s)
  {
    if blanks == "" {
      assert blanks + s == s;
    } else {
      assert (blanks + s)[1..] == blanks[1..] + s;
      assert blanks[0] in blanks;
      LooksLikeJSONPast(blanks[1..], s);
    }
  }

  lemma {:induction false} ConcatStarts(parts: seq<string>, n: nat)
    requires n < |parts|
    ensures Concat(parts[..n]) + parts[n] <= Concat(parts)
  {
    var last := |parts| - 1;
    if n < last {
      ConcatStarts(parts[..last], n);
      assert parts[..last][..n] == parts[..n];
    }
  }

  /** Whether the first character that is not blank, over all parts in turn, is an opening
      brace; the parts are not joined to find out. */
  method NsmLineLooksJSON(parts: seq<string>) returns (jsonLike: bool)
    ensures jsonLike == LooksLikeJSON(Concat(parts))
  {
    hide LooksLikeJSON, Concat;
    NoParts();
    assert parts[..0] == [];
    for i := 0 to |parts|
      invariant AllBlank(Concat(parts[..i]))
    {
      var part := parts[i];
      ConcatStarts(parts, i);
      for j := 0 to |part|
        invariant AllBlank(part[..j])
      {
        if !IsBlank(part[j]) {
          FirstCharacterDecides(Concat(parts), Concat(parts[..i]), part, j);
          return part[j] == '{';
        }
      }
      ConcatOneMore(parts, i);
    }
    BlankIsNotJSON(Concat(parts));
    assert parts[..|parts|] == parts;
    return false;
  }

  lemma NoParts()
    ensures Concat([]) == ""
  {
  }

  lemma ConcatOneMore(parts: seq<string>, i: nat)
    requires i < |parts| && AllBlank(Concat(parts[..i])) && AllBlank(parts[i])
    ensures AllBlank(Concat(parts[..i + 1]))
  {
    assert parts[..i + 1][..i] == parts[..i];
  }

  lemma FirstCharacterDecides(all: string, before: string, part: string, j: nat)
    requires before + part <= all && j < |part|
    requires AllBlank(before) && AllBlank(part[..j]) && !IsBlank(part[j])
    ensures LooksLikeJSON(all) == (part[j] == '{')
  {
    var n := |before| + j;
    assert all[n] == (before + part)[n] == part[j];
    assert all[..n] == before + part[..j];
    assert all == all[..n] + all[n..];
    LooksLikeJSONPast(all[..n], all[n..]);
  }

  lemma BlankIsNotJSON(s: string)
    ensures AllBlank(s) ==> !LooksLikeJSON(s)
  {
    if AllBlank(s) {
      LooksLikeJSONPast(s, "");
      assert s + "" == s;
    }
  }

  lemma ConcatOfTwo(a: string, b: string)
    ensures Concat([a, b]) == a + b
  {
    assert [a, b][..1] == [a] && [a][..0] == [];
    assert Concat([a]) == "" + a == a;
  }

  /** Classifies an oversized record by the part kept and the fragment that would not fit,
      and skips the rest. */
  method RejectOversized(reader: Reader, kept: LineBuffer, fragment: string, err: ReadError)
    returns (line: Line, ghost record: string)
    requires reader.Valid()
    requires if err == BufferFull then '\n' !in kept.text + fragment else IsRecordOf(kept.text + fragment, reader.Unread())
    modifies reader
    ensures reader.Valid() && record + reader.Unread() == kept.text + fragment + old(reader.Unread())
    ensures IsRecordOf(record, reader.Unread())
    ensures kept.text + fragment <= record && (err == BufferFull || kept.text + fragment == record)
    ensures line == TooLarge(LooksLikeJSON(kept.text + fragment))
  {
    hide LooksLikeJSON, IsRecordOf, Concat;
    var jsonLike := NsmLineLooksJSON([kept.text, fragment]);
    ConcatOfTwo(kept.text, fragment);
    ghost var seen := kept.text + fragment;
    ghost var skipped := DiscardRemainder(reader, err);
    record := seen + skipped;
    if err == BufferFull {
      Joined(seen, skipped, reader.Unread());
    } else {
      assert record == seen && skipped + reader.Unread() == reader.Unread();
    }
    return TooLarge(jsonLike), record;
  }

  /** What is kept of a record: all of it, or of an oversized one the whole buffers that
      fit within the limit. */
  function Kept(record: string, size: nat): (kept: string)
    requires size >= 1
    ensures kept <= record && |kept| <= LINE_MAX
  {
    if |record| <= LINE_MAX then record
    else
      WholeBuffersFit(size);
      record[..LINE_MAX / size * size]
  }

  lemma WholeBuffersFit(size: nat)
    requires size >= 1
    ensures 0 <= LINE_MAX / size * size <= LINE_MAX < (LINE_MAX / size + 1) * size
  {
    var q := LINE_MAX / size;
    assert LINE_MAX == q * size + LINE_MAX % size;
    assert (q + 1) * size == q * size + size;
  }

  /** Reads one record through buffer-sized fragments, keeping it in a buffer that cannot
      exceed the limit: an oversized record is skipped as it arrives. */
  method ReadNsmLine(reader: Reader) returns (line: Line, ghost kept: LineBuffer, ghost record: string)
    requires reader.Valid()
    modifies reader
    ensures reader.Valid()
    ensures record + reader.Unread() == old(reader.Unread()) && IsRecordOf(record, reader.Unread())
    ensures line == Classify(record, reader.size, reader.end)
    ensures fresh(kept) && kept.Valid() && kept.text == Kept(record, reader.size) && |kept.text| <= 0x10_0000
  {
    hide LooksLikeJSON, TrimRight, Seen, IsRecordOf, Kept, Classify, Terminated, WholeBuffers, Reader.Unread;
    var held := new LineBuffer();
    ghost var buffers: nat := 0;
    kept := held;
    NoBuffers(reader.size);
    while true
      invariant reader.Valid() && held.Valid() && fresh(held) && kept == held
      invariant held.text + reader.Unread() == old(reader.Unread())
      invariant '\n' !in held.text
      invariant WholeBuffers(|held.text|, buffers, reader.size)
      decreases |reader.Unread()|
    {
      var fragment, err := reader.ReadSlice();
      record := held.text + fragment;
      if err != BufferFull {
        Joined(held.text, fragment, reader.Unread());
      }
      if |held.text| + |fragment| > LINE_MAX {
        line, record := RejectOversized(reader, held, fragment, err);
        OversizedKept(record, held.text, fragment, buffers, reader.size, reader.end);
        return line, kept, record;
      }
      held.Append(fragment);
      WithinLimitKept(record, reader.size, reader.end, err);

      match err {
        case NoError =>
          return Line(TrimRight(held.text, CRLF)), kept, record;
        case BufferFull =>
          NextBuffer(|held.text| - |fragment|, buffers, reader.size);
          buffers := buffers + 1;
        case AtEnd(EndOfFile) =>
          if |held.text| == 0 {
            return Finished, kept, record;
          }
          return Line(held.text), kept, record;
        case AtEnd(Fault) =>
          return Broken, kept, record;
      }
    }
  }

  /** A number of whole buffers that fit within the limit. */
  predicate WholeBuffers(length: nat, buffers: nat, size: nat) {
    length == buffers * size
  }

  lemma WithinLimitKept(record: string, size: nat, end: StreamEnd, err: ReadError)
    requires size >= 1 && |record| <= LINE_MAX
    requires match err
             case NoError => Terminated(record)
             case BufferFull => true
             case AtEnd(e) => e == end && '\n' !in record
    ensures Kept(record, size) == record
    ensures match err
            case NoError => Classify(record, size, end) == Line(TrimRight(record, CRLF))
            case BufferFull => true
            case AtEnd(EndOfFile) => Classify(record, size, end) == if record == "" then Finished else Line(record)
            case AtEnd(Fault) => Classify(record, size, end) == Broken
  {
    hide TrimRight;
    assert record != "" ==> record[|record| - 1] in record;
  }

  lemma OversizedKept(record: string, held: string, fragment: string, buffers: nat, size: nat, end: StreamEnd)
    requires size >= 1 && |fragment| <= size && held + fragment <= record
    requires WholeBuffers(|held|, buffers, size) && |held| <= LINE_MAX < |held| + |fragment|
    requires |fragment| == size || held + fragment == record
    ensures Kept(record, size) == held
    ensures Classify(record, size, end) == TooLarge(LooksLikeJSON(held + fragment))
  {
    hide LooksLikeJSON, Seen;
    QuotientIs(LINE_MAX, buffers, size);
    CrossingPoint(|held|, |fragment|, |record|, buffers, size);
    assert record[..|held| + |fragment|] == held + fragment;
    assert record[..|held|] == held;
  }

  lemma NoBuffers(size: nat)
    ensures WholeBuffers(0, 0, size)
  {
  }

  lemma NextBuffer(length: nat, buffers: nat, size: nat)
    requires WholeBuffers(length, buffers, size)
    ensures WholeBuffers(length + size, buffers + 1, size)
  {
    assert (buffers + 1) * size == buffers * size + size;
  }

  lemma Scale(a: nat, b: nat, c: nat)
    requires a <= b
    ensures a * c <= b * c
  {
    assert b * c - a * c == (b - a) * c;
  }

  lemma QuotientIs(n: nat, b: nat, size: nat)
    requires size >= 1 && b * size <= n < b * size + size
    ensures n / size == b
  {
    var q := n / size;
    assert q * size <= n < q * size + size;
    assert (q + 1) * size == q * size + size && (b + 1) * size == b * size + size;
    if q < b { Scale(q + 1, b, size); }
    if b < q { Scale(b + 1, q, size); }
  }

  /** The whole buffers held when the limit is crossed fix what has been seen. */
  lemma CrossingPoint(held: nat, fragment: nat, length: nat, buffers: nat, size: nat)
    requires size >= 1 && fragment <= size && held == buffers * size <= LINE_MAX < held + fragment
    requires held + fragment <= length && (fragment == size || held + fragment == length)
    ensures Seen(length, size) == held + fragment
  {
    QuotientIs(LINE_MAX, buffers, size);
    assert (buffers + 1) * size == held + size;
  }

  // ---------------------------------------------------- records of the stream

  /** The record read is the first of the simple split, and the rest of the stream holds
      the others. */
  lemma RecordsUnfold(record: string, rest: string)
    requires IsRecordOf(record, rest)
    ensures Records(record + rest) == (if record == "" then [] else [record]) + Records(rest)
    ensures record == "" ==> rest == ""
  {
    hide Split;
    SplitNone("", '\n');
    if record == "" {
      assert record + rest == "";
    } else if Terminated(record) {
      var body := record[..|record| - 1];
      assert record == body + "\n";
      SplitAtFirst(body, rest, '\n');
      assert record + rest == body + ['\n'] + rest;
      var pieces := Split(rest, '\n');
      assert Split(record + rest, '\n') == [body] + pieces;
      assert Records(record + rest) == [body + "\n"] + Records(rest);
    } else {
      var body := record[..|record| - 1];
      assert record == body + [record[|record| - 1]];
      SplitNone(record, '\n');
      assert record + rest == record;
    }
  }

  // ------------------------------------------------------------ classification

  /** Position of the first character that is not blank. */
  function FirstNonBlank(s: string): (i: nat)
    ensures i <= |s| && (i < |s| ==> !IsBlank(s[i]))
    ensures forall k :: 0 <= k < i ==> IsBlank(s[k])
  {
    if s == "" || !IsBlank(s[0]) then 0 else 1 + FirstNonBlank(s[1..])
  }

  lemma {:induction false} LooksLikeJSONAt(s: string)
    ensures LooksLikeJSON(s) <==> FirstNonBlank(s) < |s| && s[FirstNonBlank(s)] == '{'
  {
    if s != "" && IsBlank(s[0]) {
      LooksLikeJSONAt(s[1..]);
    }
  }

  lemma FirstNonBlankOfPrefix(s: string, n: nat)
    requires n <= |s|
    ensures FirstNonBlank(s[..n]) == if FirstNonBlank(s) < n then FirstNonBlank(s) else n
  {
    var i, j := FirstNonBlank(s), FirstNonBlank(s[..n]);
    assert i < n ==> !IsBlank(s[..n][i]);
    assert j < n ==> !IsBlank(s[j]);
  }

  /** The verdict on an oversized record says whether its first non-blank character is a
      brace, exactly unless that brace comes after the part seen. */
  lemma OversizedVerdict(record: string, size: nat, end: StreamEnd)
    requires size >= 1 && |record| > LINE_MAX
    ensures Classify(record, size, end) == TooLarge(LooksLikeJSON(record))
       <==> !(LooksLikeJSON(record) && FirstNonBlank(record) >= Seen(|record|, size))
  {
    SeenBounds(|record|, size);
    var n := Seen(|record|, size);
    LooksLikeJSONAt(record);
    LooksLikeJSONAt(record[..n]);
    FirstNonBlankOfPrefix(record, n);
  }

  /** With its first non-blank character among the first 2^20 + 1, or none at all, the
      verdict does not depend on the buffer. */
  lemma OversizedVerdictIndependent(record: string, size: nat, end: StreamEnd)
    requires size >= 1 && |record| > LINE_MAX
    requires FirstNonBlank(record) <= LINE_MAX || FirstNonBlank(record) == |record|
    ensures Classify(record, size, end) == TooLarge(LooksLikeJSON(record))
  {
    SeenBounds(|record|, size);
    LooksLikeJSONAt(record);
    OversizedVerdict(record, size, end);
  }

  /** Otherwise it can depend on it: blanks that fill the window of the reader's default
      buffer of 4096 bytes, then a brace that one twice that size still sees. */
  lemma VerdictDependsOnBuffer(end: StreamEnd)
    ensures exists record: string ::
      Classify(record, 4096, end) == TooLarge(false) && Classify(record, 8192, end) == TooLarge(true)
  {
    hide LooksLikeJSON;
    var n := 257 * 4096;
    var record := seq(n, _ => ' ') + "{";
    assert record[n] == '{' && forall k :: 0 <= k < n ==> record[k] == ' ';
    assert FirstNonBlank(record) == n;
    LooksLikeJSONAt(record);
    assert LINE_MAX / 4096 == 256 && LINE_MAX / 8192 == 128;
    assert Seen(|record|, 4096) == n && Seen(|record|, 8192) == n + 1;
    OversizedVerdict(record, 4096, end);
    OversizedVerdict(record, 8192, end);
  }
}

/** The managed block of the hosts file (hosts.go). */
module Hosts {
  import opened Text
  import opened Ipv4
  import opened Configs

  const BEGIN := "# argonaut begin"
  const END := "# argonaut end"
  const LOCALHOST := "127.0.0.1   localhost"
  const LF: set<char> := {'\n'}

  // ------------------------------------------------------------- specification

  /** The text without its first managed block. An unterminated block reaches to the
      end; the line ends that follow a terminated one go with it. */
  function Strip(text: string): string {
    var b := Index(text, BEGIN);
    if b == -1 then text else
      var e := Index(text[b..], END);
      if e == -1 then TrimRight(text[..b], LF) + "\n"
      else text[..b] + AfterLineEnds(text[b + e + |END|..])
  }

  /** Without trailing line feeds; a blank text is replaced by the localhost line. */
  function Kept(stripped: string): string {
    var base := TrimRight(stripped, LF);
    if TrimSpace(base) == "" then LOCALHOST else base
  }

  /** What a merge keeps of the existing text. */
  function Base(text: string): string {
    Kept(Strip(text))
  }

  function Entry(es: seq<Endpoint>, k: nat): string
    requires k < |es|
  {
    LocalIP(es[k], k) + "   " + es[k].host
  }

  /** The lines of the endpoints from position `k` on. */
  function Entries(es: seq<Endpoint>, k: nat): string
    requires k <= |es|
    decreases |es| - k
  {
    if k == |es| then "" else Entry(es, k) + "\n" + Entries(es, k + 1)
  }

  function Block(es: seq<Endpoint>): string {
    BEGIN + "\n" + Entries(es, 0) + END + "\n"
  }

  function Merge(text: string, es: seq<Endpoint>): string {
    Base(text) + "\n\n" + Block(es)
  }

  predicate AllValid(es: seq<Endpoint>) {
    forall k :: 0 <= k < |es| ==> ValidEndpoint(es[k])
  }

  // ------------------------------------------------------------------ the code

  /** What follows the end marker once its line ends are dropped. */
  function AfterLineEnds(s: string): (r: string)
    ensures |r| <= |s| && r == s[|s| - |r|..]
    ensures forall k :: 0 <= k < |s| - |r| ==> s[k] == '\r' || s[k] == '\n'
  {
    TrimLeft(s, CRLF)
  }

  lemma LineEndStep(s: string)
    ensures s != "" && (s[0] == '\n' || s[0] == '\r') ==> AfterLineEnds(s) == AfterLineEnds(s[1..])
    ensures s == "" || !(s[0] == '\n' || s[0] == '\r') ==> AfterLineEnds(s) == s
  {
  }

  method StripManagedHostsBlock(existing: string) returns (r: string)
    ensures r == Strip(existing)
  {
    hide Index, TrimRight, AfterLineEnds;
    var begin := Index(existing, BEGIN);
    if begin == -1 {
      return existing;
    }
    var endRel := Index(existing[begin..], END);
    if endRel == -1 {
      return TrimRight(existing[..begin], LF) + "\n";
    }
    var end := DropLineEnds(existing, begin + endRel + |END|);
    return existing[..begin] + existing[end..];
  }

  method DropLineEnds(existing: string, start: nat) returns (end: nat)
    requires start <= |existing|
    ensures end <= |existing| && existing[end..] == AfterLineEnds(existing[start..])
  {
    hide AfterLineEnds;
    end := start;
    while end < |existing| && (existing[end] == '\n' || existing[end] == '\r')
      invariant start <= end <= |existing|
      invariant AfterLineEnds(existing[end..]) == AfterLineEnds(existing[start..])
    {
      LineEndStep(existing[end..]);
      assert existing[end..][1..] == existing[end + 1..];
      end := end + 1;
    }
    LineEndStep(existing[end..]);
  }

  datatype MergeResult = Merged(text: string) | Rejected(index: nat, reason: EndpointError)

  lemma Unroll(block: string, es: seq<Endpoint>, i: nat)
    requires i < |es|
    ensures block + Entries(es, i)
         == block + LocalIP(es[i], i) + "   " + es[i].host + "\n" + Entries(es, i + 1)
  {
  }

  /** Rewrites the managed block; an invalid endpoint rejects the whole merge. */
  method MergeHosts(existing: string, es: seq<Endpoint>) returns (r: MergeResult)
    ensures AllValid(es) ==> r == Merged(Merge(existing, es))
    ensures !AllValid(es) ==>
      && r.Rejected? && r.index < |es| && ValidateEndpoint(es[r.index]) == Some(r.reason)
      && forall k :: 0 <= k < r.index ==> ValidEndpoint(es[k])
  {
    hide ValidEndpoint, Strip, TrimRight, TrimSpace, LocalIP, ValidateEndpoint;
    for i := 0 to |es|
      invariant forall k :: 0 <= k < i ==> ValidEndpoint(es[k])
    {
      var bad := ValidateEndpoint(es[i]);
      if bad.Some? {
        return Rejected(i, bad.value);
      }
    }

    var base := StripManagedHostsBlock(existing);
    base := TrimRight(base, LF);
    if TrimSpace(base) == "" {
      base := LOCALHOST;
    }

    var block := BEGIN;
    block := block + "\n";
    for i := 0 to |es|
      invariant block + Entries(es, i) == BEGIN + "\n" + Entries(es, 0)
    {
      Unroll(block, es, i);
      block := block + LocalIP(es[i], i) + "   " + es[i].host + "\n";
    }
    assert block == BEGIN + "\n" + Entries(es, 0);
    block := block + END;
    block := block + "\n";

    var out := base;
    out := out + "\n\n";
    out := out + block;
    return Merged(out);
  }

  // ------------------------------------------------------------------- markers

  lemma MarkerShape()
    ensures BEGIN[0] == END[0] == '#'
    ensures forall k :: 0 < k < |BEGIN| ==> BEGIN[k] != '#'
    ensures forall k :: 0 < k < |END| ==> END[k] != '#'
    ensures '\n' !in BEGIN && '\n' !in END
    ensures |BEGIN| == 16 && |END| == 14
  {
  }

  /** A marker that follows text without one is its first occurrence: nothing of the
      preceding text can complete a marker, whose only '#' is its first character. */
  lemma FirstMarker(p: string, marker: string, rest: string)
    requires marker == BEGIN || marker == END
    requires !Contains(p, marker)
    ensures Index(p + (marker + rest), marker) == |p|
  {
    MarkerShape();
    var b := marker + rest;
    var t := p + b;
    assert b[0] == marker[0];
    assert OccursAt(t, marker, |p|) by { assert t[|p|..|p| + |marker|] == marker; }
    var r := Index(t, marker);
    OccurrenceSplits(p, b, marker, r);
  }

  lemma StartsWithHash(s: string, marker: string)
    requires marker == BEGIN || marker == END
    ensures forall i :: OccursAt(s, marker, i) ==> s[i] == '#'
  {
    MarkerShape();
    forall i | OccursAt(s, marker, i) ensures s[i] == '#' {
      assert s[i] == s[i..i + |marker|][0];
    }
  }

  lemma HashFreeHasNoMarker(s: string, marker: string)
    requires marker == BEGIN || marker == END
    requires '#' !in s
    ensures !Contains(s, marker)
  {
    StartsWithHash(s, marker);
  }

  /** Line ends are not part of a marker, so trimming them creates or removes none. */
  lemma TrimKeepsMarkers(s: string)
    ensures Contains(TrimRight(s, LF), BEGIN) <==> Contains(s, BEGIN)
  {
    MarkerShape();
    var t := TrimRight(s, LF);
    assert s == t + s[|t|..];
    if i :| OccursAt(t, BEGIN, i) {
      assert s[i..i + |BEGIN|] == t[i..i + |BEGIN|];
      assert OccursAt(s, BEGIN, i);
    }
    if i :| OccursAt(s, BEGIN, i) {
      assert s[i + |BEGIN| - 1] == s[i..i + |BEGIN|][|BEGIN| - 1] == 'n';
      assert t[i..i + |BEGIN|] == s[i..i + |BEGIN|];
      assert OccursAt(t, BEGIN, i);
    }
  }

  lemma BaseMarkers(text: string)
    ensures Contains(Base(text), BEGIN) <==> Contains(Strip(text), BEGIN)
    ensures Base(text) != "" && Base(text)[|Base(text)| - 1] != '\n'
    ensures TrimSpace(Base(text)) != ""
  {
    hide Strip, TrimSpace, TrimRight;
    var s := Strip(text);
    var base := TrimRight(s, LF);
    TrimKeepsMarkers(s);
    assert LOCALHOST[0] in LOCALHOST && LOCALHOST[0] !in SPACE;
    if TrimSpace(base) == "" {
      assert '#' !in base;
      HashFreeHasNoMarker(base, BEGIN);
      HashFreeHasNoMarker(LOCALHOST, BEGIN);
    }
  }

  // --------------------------------------------------------------------- entries

  lemma EntryAlphabet(es: seq<Endpoint>, k: nat)
    requires k < |es| && ValidEndpoint(es[k])
    ensures forall c :: c in LocalIP(es[k], k) ==> AddressChar(c)
    ensures '#' !in Entry(es, k) && '\n' !in Entry(es, k)
    ensures IsToken(LocalIP(es[k], k)) && IsToken(es[k].host)
  {
    var ip := LocalIP(es[k], k);
    if es[k].localIP != "" {
      FormatOfParse(ip);
      FormatAlphabet(ParseIPv4(ip).value);
    } else {
      var d := Decimal(FIRST_LOCAL_OCTET + k);
      assert forall c :: c in d ==> IsDigit(c);
      assert ip == "127.0.0." + d;
    }
    assert forall c :: c in es[k].host ==> HostChar(c);
  }

  lemma {:induction false} EntriesHashFree(es: seq<Endpoint>, k: nat)
    requires k <= |es| && AllValid(es)
    ensures '#' !in Entries(es, k)
    decreases |es| - k
  {
    hide ValidEndpoint, Entry;
    if k < |es| {
      EntryAlphabet(es, k);
      EntriesHashFree(es, k + 1);
    }
  }

  lemma OpenBlockHasNoEnd(es: seq<Endpoint>)
    requires AllValid(es)
    ensures !Contains(BEGIN + ("\n" + Entries(es, 0)), END)
  {
    MarkerShape();
    EntriesHashFree(es, 0);
    var mid := "\n" + Entries(es, 0);
    HashFreeHasNoMarker(mid, END);
    BeginIsNotEnd();
    Concatenated(BEGIN, mid, END);
  }

  lemma BeginIsNotEnd()
    ensures !Contains(BEGIN, END)
  {
    MarkerShape();
    forall i | OccursAt(BEGIN, END, i) ensures BEGIN[i] == '#' {
      assert BEGIN[i] == BEGIN[i..i + |END|][0];
    }
    assert BEGIN[0..|END|][11] == 'b' && END[11] == 'e';
  }

  /** Neither part holds the marker and the second cannot continue one. */
  lemma Concatenated(a: string, b: string, marker: string)
    requires marker == BEGIN || marker == END
    requires !Contains(a, marker) && !Contains(b, marker)
    requires b == "" || b[0] == '#' || b[0] == '\n'
    ensures !Contains(a + b, marker)
  {
    MarkerShape();
    forall i | OccursAt(a + b, marker, i)
      ensures OccursAt(a, marker, i) || OccursAt(b, marker, i - |a|)
    {
      OccurrenceSplits(a, b, marker, i);
    }
  }

  /** A rendered block ends at its own first end marker. */
  lemma BlockShape(es: seq<Endpoint>)
    requires AllValid(es)
    ensures Block(es) == BEGIN + ("\n" + Entries(es, 0)) + END + "\n"
    ensures Index(BEGIN + ("\n" + Entries(es, 0)) + END, END) == |BEGIN| + 1 + |Entries(es, 0)|
    ensures Block(es)[0] == '#'
  {
    hide ValidEndpoint, Entries, Index, Contains;
    OpenBlockHasNoEnd(es);
    var head := BEGIN + ("\n" + Entries(es, 0));
    FirstMarker(head, END, "");
    assert head + (END + "") == head + END;
  }

  // ------------------------------------------------------------ strip, exactly

  lemma StripAt(t: string, b: nat, e: nat)
    requires Index(t, BEGIN) == b && b <= |t| && Index(t[b..], END) == e
    ensures b + e + |END| <= |t| && Strip(t) == t[..b] + AfterLineEnds(t[b + e + |END|..])
  {
    hide Index, AfterLineEnds, TrimRight;
  }

  lemma ClosedBlockAt(p: string, block: string, more: string)
    requires !Contains(p, BEGIN) && BEGIN <= block
    requires Index(block, END) == |block| - |END| && |block| >= |END|
    ensures Strip(p + block + more) == p + AfterLineEnds(more)
  {
    hide *;
    var rest := block[|BEGIN|..] + more;
    var t := p + block + more;
    assert t == p + (BEGIN + rest);
    FirstMarker(p, BEGIN, rest);
    assert t[|p|..] == block + more;
    FirstInPrefix(block, more, END);
    StripAt(t, |p|, |block| - |END|);
    assert t[|p| + |block|..] == more && t[..|p|] == p;
  }

  /** Text before the block, a block closed by its first end marker, any run of line
      ends, text after: stripping keeps exactly the two outer texts. */
  lemma StripExact(p: string, mid: string, lineEnds: string, s: string)
    requires !Contains(p, BEGIN)
    requires Index(BEGIN + mid + END, END) == |BEGIN| + |mid|
    requires forall c :: c in lineEnds ==> c in CRLF
    requires s == "" || s[0] !in CRLF
    ensures Strip(p + (BEGIN + mid + END) + lineEnds + s) == p + s
  {
    hide Strip, Index, Contains, TrimLeft;
    var block := BEGIN + mid + END;
    ClosedBlockAt(p, block, lineEnds + s);
    assert p + block + lineEnds + s == p + block + (lineEnds + s);
    TrimLeftRun(lineEnds, s, CRLF);
  }

  /** Appending text does not move the first occurrence. */
  lemma FirstInPrefix(a: string, b: string, marker: string)
    requires Index(a, marker) >= 0
    ensures Index(a + b, marker) == Index(a, marker)
  {
    var i, j := Index(a, marker), Index(a + b, marker);
    assert (a + b)[i..i + |marker|] == a[i..i + |marker|];
    assert OccursAt(a + b, marker, i);
    assert a[j..j + |marker|] == (a + b)[j..j + |marker|];
    assert OccursAt(a, marker, j);
  }

  lemma {:induction false} TrimLeftRun(run: string, s: string, cut: set<char>)
    requires forall c :: c in run ==> c in cut
    requires s == "" || s[0] !in cut
    ensures TrimLeft(run + s, cut) == s
  {
    if run == "" {
      assert run + s == s;
    } else {
      assert (run + s)[1..] == run[1..] + s;
      TrimLeftRun(run[1..], s, cut);
    }
  }

  /** A begin marker with no end marker after it takes the rest of the text with it, and
      what precedes it is left with one line feed. */
  lemma StripUnclosed(p: string, rest: string)
    requires !Contains(p, BEGIN) && !Contains(BEGIN + rest, END)
    ensures Strip(p + (BEGIN + rest)) == TrimRight(p, LF) + "\n"
  {
    hide Index, TrimRight, OccursAt;
    var t := p + (BEGIN + rest);
    FirstMarker(p, BEGIN, rest);
    assert t[|p|..] == BEGIN + rest && t[..|p|] == p;
  }

  lemma StripUnmarked(text: string)
    requires !Contains(text, BEGIN)
    ensures Strip(text) == text
  {
    hide AfterLineEnds, TrimRight;
  }

  /** A text whose begin marker is never closed. */
  ghost predicate OpenShape(text: string, p: string, rest: string) {
    text == p + (BEGIN + rest) && !Contains(p, BEGIN) && !Contains(BEGIN + rest, END)
  }

  /** A text whose block is closed by its first end marker. */
  ghost predicate ClosedShape(text: string, p: string, mid: string, lineEnds: string, s: string) {
    && text == p + (BEGIN + mid + END) + lineEnds + s
    && !Contains(p, BEGIN) && Index(BEGIN + mid + END, END) == |BEGIN| + |mid|
    && (forall c :: c in lineEnds ==> c in CRLF) && (s == "" || s[0] !in CRLF)
  }

  /** Every text that holds a begin marker has one of these shapes, so the laws above say
      what stripping does to every text. */
  lemma StripShapes(text: string)
    requires Contains(text, BEGIN)
    ensures || (exists p, rest :: OpenShape(text, p, rest))
            || (exists p, mid, lineEnds, s :: ClosedShape(text, p, mid, lineEnds, s))
  {
    hide Index, OpenShape, ClosedShape;
    var b := Index(text, BEGIN);
    IndexFinds(text, BEGIN);
    var p, rest := text[..b], text[b + |BEGIN|..];
    CutAtFirst(text, BEGIN);
    if Contains(BEGIN + rest, END) {
      ClosedRest(p, rest);
    } else {
      assert OpenShape(text, p, rest) by { OpenIs(text, p, rest); }
    }
  }

  lemma OpenIs(text: string, p: string, rest: string)
    requires text == p + (BEGIN + rest) && !Contains(p, BEGIN) && !Contains(BEGIN + rest, END)
    ensures OpenShape(text, p, rest)
  {
  }

  lemma CutAtFirst(text: string, marker: string)
    requires Index(text, marker) >= 0
    ensures var i := Index(text, marker);
            && text == text[..i] + (marker + text[i + |marker|..])
            && (marker != "" ==> !Contains(text[..i], marker))
  {
    hide Index;
    var i := Index(text, marker);
    var p := text[..i];
    assert text[i..i + |marker|] == marker;
    forall k | OccursAt(p, marker, k) ensures OccursAt(text, marker, k) {
      assert text[k..k + |marker|] == p[k..k + |marker|];
    }
  }

  lemma ClosedRest(p: string, rest: string)
    requires !Contains(p, BEGIN) && Contains(BEGIN + rest, END)
    ensures exists mid, lineEnds, s :: ClosedShape(p + (BEGIN + rest), p, mid, lineEnds, s)
  {
    hide AfterLineEnds, Contains, ClosedShape;
    var mid, after := FirstBlock(rest);
    var s := AfterLineEnds(after);
    var lineEnds := after[..|after| - |s|];
    assert after == lineEnds + s;
    NoLeadingLineEnd(after);
    ClosedIs(p, mid, lineEnds, s, rest);
  }

  /** The block that follows a begin marker, up to its first end marker. */
  lemma FirstBlock(rest: string) returns (mid: string, after: string)
    requires Contains(BEGIN + rest, END)
    ensures BEGIN + rest == (BEGIN + mid + END) + after
    ensures Index(BEGIN + mid + END, END) == |BEGIN| + |mid|
  {
    hide Index, Contains, OccursAt;
    IndexFinds(BEGIN + rest, END);
    EndAfterBegin(rest);
    var head;
    head, after := CutBehind(BEGIN + rest, END);
    mid := head[|BEGIN|..];
    assert head == BEGIN + mid by {
      assert head[..|BEGIN|] == (BEGIN + rest)[..|BEGIN|] == BEGIN;
    }
    FirstOfPrefix(head + END, after, END, |head|);
  }

  /** A text cut behind the first occurrence of a marker. */
  lemma CutBehind(text: string, marker: string) returns (head: string, after: string)
    requires Index(text, marker) >= 0
    ensures text == (head + marker) + after && |head| == Index(text, marker) && head <= text
  {
    hide Index;
    CutAtFirst(text, marker);
    var e := Index(text, marker);
    head, after := text[..e], text[e + |marker|..];
    Regroup("", head, marker, after);
  }

  lemma ClosedIs(p: string, mid: string, lineEnds: string, s: string, rest: string)
    requires !Contains(p, BEGIN) && BEGIN + rest == (BEGIN + mid + END) + (lineEnds + s)
    requires Index(BEGIN + mid + END, END) == |BEGIN| + |mid|
    requires (forall c :: c in lineEnds ==> c in CRLF) && (s == "" || s[0] !in CRLF)
    ensures ClosedShape(p + (BEGIN + rest), p, mid, lineEnds, s)
  {
    hide Index, Contains;
    RegroupBlock(p, BEGIN + mid + END, lineEnds, s);
  }

  lemma RegroupBlock(p: string, block: string, lineEnds: string, s: string)
    ensures p + (block + (lineEnds + s)) == p + block + lineEnds + s
  {
  }

  /** The end marker cannot overlap the begin marker it follows. */
  lemma EndAfterBegin(rest: string)
    requires Contains(BEGIN + rest, END)
    ensures Index(BEGIN + rest, END) >= |BEGIN|
  {
    hide Index, Contains;
    MarkerShape();
    BeginIsNotEnd();
    var t := BEGIN + rest;
    StartsWithHash(t, END);
    var e := Index(t, END);
    assert OccursAt(t, END, e) by { IndexFinds(t, END); }
    assert forall k :: 0 < k < |BEGIN| ==> t[k] == BEGIN[k];
    assert t[0..|END|] == BEGIN[0..|END|];
    assert !OccursAt(BEGIN, END, 0) by { NotAtStart(); }
    assert e == 0 ==> OccursAt(BEGIN, END, 0);
  }

  lemma IndexFinds(t: string, marker: string)
    requires Contains(t, marker)
    ensures Index(t, marker) >= 0 && OccursAt(t, marker, Index(t, marker))
  {
    hide IndexFrom;
  }

  lemma NotAtStart()
    ensures !OccursAt(BEGIN, END, 0)
  {
    assert BEGIN[0..|END|][11] == 'b' && END[11] == 'e';
  }

  /** The first occurrence in a text is the first in a prefix that contains it. */
  lemma FirstOfPrefix(a: string, b: string, marker: string, e: nat)
    requires Index(a + b, marker) == e && e + |marker| <= |a|
    ensures Index(a, marker) == e
  {
    assert a[e..e + |marker|] == (a + b)[e..e + |marker|];
    assert OccursAt(a, marker, e);
    FirstInPrefix(a, b, marker);
  }

  lemma NoLeadingLineEnd(s: string)
    ensures var r := AfterLineEnds(s); r == "" || r[0] !in CRLF
    ensures forall c :: c in s[..|s| - |AfterLineEnds(s)|] ==> c in CRLF
  {
    hide TrimLeft;
  }

  /** The merged text when the old block is closed by its first end marker. */
  lemma MergeExact(p: string, mid: string, lineEnds: string, s: string, es: seq<Endpoint>)
    requires !Contains(p, BEGIN)
    requires Index(BEGIN + mid + END, END) == |BEGIN| + |mid|
    requires forall c :: c in lineEnds ==> c in CRLF
    requires s == "" || s[0] !in CRLF
    ensures var kept := TrimRight(p + s, LF);
            Merge(p + (BEGIN + mid + END) + lineEnds + s, es)
              == (if forall c :: c in kept ==> c in SPACE then LOCALHOST else kept) + "\n\n" + Block(es)
  {
    StripExact(p, mid, lineEnds, s);
  }

  // ------------------------------------------------------------- merging again

  /** Stripping what a merge wrote gives back what it kept. */
  lemma StripOfMerge(base: string, es: seq<Endpoint>)
    requires AllValid(es) && !Contains(base, BEGIN)
    ensures Strip(base + "\n\n" + Block(es)) == base + "\n\n"
  {
    hide Strip, Contains, Index, Entries, ValidEndpoint, Block;
    MarkerShape();
    BlockShape(es);
    var p := base + "\n\n";
    HashFreeHasNoMarker("\n\n", BEGIN);
    Concatenated(base, "\n\n", BEGIN);
    StripExact(p, "\n" + Entries(es, 0), "\n", "");
    assert base + "\n\n" + Block(es)
        == p + (BEGIN + ("\n" + Entries(es, 0)) + END) + "\n" + "";
    assert p + "" == p;
  }

  lemma BaseOfMerge(text: string, es: seq<Endpoint>)
    requires AllValid(es) && !Contains(Strip(text), BEGIN)
    ensures Base(Merge(text, es)) == Base(text)
  {
    hide Strip, TrimRight, TrimSpace, Block, ValidEndpoint, Contains;
    BaseMarkers(text);
    StripOfMerge(Base(text), es);
    TrimRightUnique("\n\n", Base(text), LF);
  }

  lemma Remerge(text: string, es: seq<Endpoint>, fs: seq<Endpoint>)
    requires AllValid(es) && !Contains(Strip(text), BEGIN)
    ensures Merge(Merge(text, es), fs) == Merge(text, fs)
  {
    BaseOfMerge(text, es);
  }

  /** Some valid endpoint, to build blocks of any length from. */
  const SAMPLE := Endpoint("a", 1, 443, 443, "", false, false, false)

  lemma SampleValid()
    ensures ValidEndpoint(SAMPLE)
  {
    SplitNone("a", '.');
  }

  lemma {:induction false} EntriesLength(es: seq<Endpoint>, k: nat)
    requires k <= |es|
    ensures |Entries(es, k)| >= |es| - k
    decreases |es| - k
  {
    if k < |es| {
      EntriesLength(es, k + 1);
    }
  }

  /** When what strip leaves still holds a begin marker, a long enough block is not
      replaced by the next merge: either it is buried in what that merge keeps, or it
      takes some of the old text with it. */
  lemma RemergeFails(text: string, es: seq<Endpoint>)
    requires AllValid(es) && Contains(Strip(text), BEGIN) && |es| > |Base(text)|
    ensures Base(Merge(text, es)) != Base(text)
  {
    hide Index, Strip, Base, ValidEndpoint, AllValid, Entries, Block, AfterLineEnds, TrimSpace, OccursAt;
    var base := Base(text);
    BaseMarkers(text);
    BlockLength(es);
    var b := Index(base, BEGIN);
    assert Merge(text, es) == base + ("\n\n" + Block(es));
    if Contains(base[b..], END) {
      CutInside(base, b, Block(es));
    } else {
      Swallowed(base, b, es);
    }
  }

  lemma BlockLength(es: seq<Endpoint>)
    requires AllValid(es)
    ensures var block := Block(es);
            && |block| > |es| + 2 && block[0] == '#'
            && block[|block| - 1] == '\n' && block[|block| - 2] != '\n'
  {
    EntriesLength(es, 0);
    BlockShape(es);
    MarkerShape();
    hide Entries, ValidEndpoint;
  }

  /** The marker left in the old text is unclosed: it takes the text from there on. */
  lemma Swallowed(base: string, b: nat, es: seq<Endpoint>)
    requires AllValid(es)
    requires b <= |base| && Index(base, BEGIN) == b && !Contains(base[b..], END)
    ensures Base(base + ("\n\n" + Block(es))) != base
  {
    hide Index, Strip, Kept, ValidEndpoint, Entries, Block, AfterLineEnds, Contains, OccursAt, AllValid;
    var more := "\n\n" + Block(es);
    var m := base + more;
    FirstInPrefix(base, more, BEGIN);
    assert m[b..] == base[b..] + more;
    CutToEnd(base[b..], es);
    StripAt(m, b, Index(m[b..], END));
    assert Strip(m) == base[..b];
    HashAtMarker(base, b, BEGIN);
    KeptIsShorter(base[..b], base);
  }

  lemma HashAtMarker(s: string, i: nat, marker: string)
    requires marker == BEGIN || marker == END
    requires i <= |s| && Index(s, marker) == i
    ensures i < |s| && s[i] == '#'
  {
    StartsWithHash(s, marker);
    assert OccursAt(s, marker, i);
    MarkerShape();
  }

  lemma KeptIsShorter(part: string, whole: string)
    requires |part| < |whole| && '#' in whole
    ensures Kept(part) != whole
  {
    hide TrimRight, TrimSpace;
    assert '#' !in LOCALHOST;
  }

  /** The first block of the old text is closed: the new block stays whole. */
  lemma CutInside(base: string, b: nat, block: string)
    requires b <= |base| && Index(base, BEGIN) == b && Index(base[b..], END) >= 0
    requires |block| >= 2 && block[0] == '#'
    requires block[|block| - 1] == '\n' && block[|block| - 2] != '\n'
    ensures |Base(base + ("\n\n" + block))| >= |block| - 1
  {
    hide Index, Strip, Kept, AfterLineEnds, OccursAt;
    var more := "\n\n" + block;
    var m := base + more;
    var e := Index(base[b..], END);
    FirstInPrefix(base, more, BEGIN);
    FirstInPrefix(base[b..], more, END);
    assert m[b..] == base[b..] + more;
    StripAt(m, b, e);
    var cut := b + e + |END|;
    assert m[cut..] == (base[cut..] + "\n\n") + block;
    BuriedBlock(m[..b], m[cut..], base[cut..] + "\n\n", block);
  }

  /** An unclosed begin marker swallows the appended block up to its end marker. */
  lemma CutToEnd(after: string, es: seq<Endpoint>)
    requires AllValid(es) && !Contains(after, END)
    ensures var t := after + ("\n\n" + Block(es));
            Index(t, END) + |END| == |t| - 1 && AfterLineEnds(t[|t| - 1..]) == ""
  {
    hide Index, ValidEndpoint, Entries, Contains;
    MarkerShape();
    OpenBlockHasNoEnd(es);
    var open := BEGIN + ("\n" + Entries(es, 0));
    HashFreeHasNoMarker("\n\n", END);
    Concatenated("\n\n", open, END);
    Concatenated(after, "\n\n" + open, END);
    var head := after + ("\n\n" + open);
    FirstMarker(head, END, "\n");
    var t := after + ("\n\n" + Block(es));
    assert t == head + (END + "\n");
    assert t[|t| - 1..] == "\n";
  }

  /** A block preceded by a cut survives the trimming on both sides. */
  lemma BuriedBlock(p: string, tail: string, gap: string, block: string)
    requires tail == gap + block && |block| >= 2 && block[0] == '#'
    requires block[|block| - 1] == '\n' && block[|block| - 2] != '\n'
    ensures |Kept(p + AfterLineEnds(tail))| >= |block| - 1
  {
    hide TrimRight, TrimSpace, AfterLineEnds;
    var t := AfterLineEnds(tail);
    assert tail[|gap|] == '#';
    assert |t| >= |block|;
    var u := p + t;
    assert u[|u| - 2] == t[|t| - 2] == tail[|tail| - 2] == block[|block| - 2];
    var r := TrimRight(u, LF);
    assert |r| >= |u| - 1;
    assert u[|u| - |block|] == t[|t| - |block|] == tail[|tail| - |block|] == '#';
    assert r[|u| - |block|] == '#';
    assert '#' in r && '#' !in SPACE;
  }

  /** The re-merge law, exactly: the block written by one merge is replaced by every
      later merge, whatever the endpoints, if and only if no begin marker is left
      after stripping. */
  lemma RemergeIff(text: string)
    ensures (forall es, fs :: AllValid(es) && AllValid(fs) ==>
              Merge(Merge(text, es), fs) == Merge(text, fs))
       <==> !Contains(Strip(text), BEGIN)
  {
    hide Strip, Base, Block, ValidEndpoint;
    if Contains(Strip(text), BEGIN) {
      SampleValid();
      var es := seq(|Base(text)| + 1, _ => SAMPLE);
      RemergeFails(text, es);
      var again, once := Merge(Merge(text, es), []), Merge(text, []);
      assert AllValid(es) && AllValid([]);
      var x, y, tail := Base(Merge(text, es)), Base(text), "\n\n" + Block([]);
      assert again == x + tail && once == y + tail;
      assert again[..|again| - |tail|] == x && once[..|once| - |tail|] == y;
    } else {
      forall es, fs | AllValid(es) && AllValid(fs)
        ensures Merge(Merge(text, es), fs) == Merge(text, fs)
      {
        Remerge(text, es, fs);
      }
    }
  }

  /** The law does fail: cutting one block out can join a marker across the cut. */
  lemma MarkerAcrossCut()
    ensures Contains(Strip("# argonaut " + (BEGIN + "\n" + END) + "\n" + "begin"), BEGIN)
  {
    hide Strip, Block, Index;
    MarkerShape();
    var p := "# argonaut ";
    forall i | OccursAt(p, BEGIN, i) ensures false {
      assert |p| < |BEGIN|;
    }
    BlockShape([]);
    assert "\n" + Entries([], 0) == "\n";
    StripExact(p, "\n", "\n", "begin");
    assert OccursAt(p + "begin", BEGIN, 0);
  }

  /** A merge in full: two endpoints, one with an address of its own, into a file that
      ends in blank lines; and none into an empty file. */
  lemma MergedSamples()
    ensures Merge("10.0.0.1 db\n\n", [SAMPLE, OTHER_SAMPLE])
         == "10.0.0.1 db" + "\n\n" + ("# argonaut begin" + "\n"
              + ("127.0.0.64" + "   " + "a" + "\n" + ("127.0.1.9" + "   " + "b.example" + "\n" + ""))
              + "# argonaut end" + "\n")
    ensures Merge("", []) == "127.0.0.1   localhost" + "\n\n" + ("# argonaut begin" + "\n" + "" + "# argonaut end" + "\n")
  {
    hide Strip, Contains, Index, Kept, Block;
    SampleBlock();
    SampleKept();
    UnmarkedWithoutHash("10.0.0.1 db\n\n");
    UnmarkedWithoutHash("");
    StripUnmarked("10.0.0.1 db\n\n");
    StripUnmarked("");
  }

  const OTHER_SAMPLE := Endpoint("b.example", 2, 443, 8443, "127.0.1.9", false, true, true)

  lemma SampleBlock()
    ensures Block([SAMPLE, OTHER_SAMPLE])
         == "# argonaut begin" + "\n"
              + ("127.0.0.64" + "   " + "a" + "\n" + ("127.0.1.9" + "   " + "b.example" + "\n" + ""))
              + "# argonaut end" + "\n"
    ensures Block([]) == "# argonaut begin" + "\n" + "" + "# argonaut end" + "\n"
  {
    SampleEntries();
  }

  lemma SampleEntries()
    ensures Entries([SAMPLE, OTHER_SAMPLE], 0)
         == "127.0.0.64" + "   " + "a" + "\n" + ("127.0.1.9" + "   " + "b.example" + "\n" + "")
    ensures Entries([], 0) == ""
  {
    var es := [SAMPLE, OTHER_SAMPLE];
    assert "127.0.0." + Decimal(64) == "127.0.0.64" by { assert Decimal(64) == "64"; }
    assert Entry(es, 0) == "127.0.0.64" + "   " + "a";
    assert Entry(es, 1) == "127.0.1.9" + "   " + "b.example";
    assert Entries(es, 2) == "";
    assert Entries(es, 1) == Entry(es, 1) + "\n" + Entries(es, 2);
  }

  lemma SampleKept()
    ensures Kept("10.0.0.1 db\n\n") == "10.0.0.1 db"
    ensures Kept("") == "127.0.0.1   localhost"
  {
    var base := "10.0.0.1 db";
    assert base + "\n\n" == "10.0.0.1 db\n\n";
    TrimRightUnique("\n\n", base, LF);
    TrimSpaceOfTight(base);
  }

  lemma UnmarkedWithoutHash(text: string)
    requires '#' !in text
    ensures !Contains(text, BEGIN)
  {
    MarkerShape();
    HashFreeHasNoMarker(text, BEGIN);
  }

  // -------------------------------------------------------------- reading back

  function UntilEnd(lines: seq<string>): seq<string> {
    if lines == [] || lines[0] == END then [] else [lines[0]] + UntilEnd(lines[1..])
  }

  function ManagedLines(lines: seq<string>): seq<string> {
    if lines == [] then []
    else if lines[0] == BEGIN then UntilEnd(lines[1..])
    else ManagedLines(lines[1..])
  }

  /** Reads the managed block back: the address and the name on each of its lines. */
  function ReadBack(text: string): seq<seq<string>> {
    var lines := ManagedLines(Split(text, '\n'));
    seq(|lines|, k requires 0 <= k < |lines| => Fields(lines[k]))
  }

  lemma EntryFields(es: seq<Endpoint>, k: nat)
    requires k < |es| && ValidEndpoint(es[k])
    ensures Fields(Entry(es, k)) == [LocalIP(es[k], k), es[k].host]
  {
    hide ValidEndpoint, Fields, LocalIP, IsToken;
    EntryAlphabet(es, k);
    var ip, host := LocalIP(es[k], k), es[k].host;
    FieldsStep("   ", host, "");
    FieldsStep("", ip, "   " + host);
    assert Entry(es, k) == "" + ip + ("   " + host);
    assert "   " + host + "" == "   " + host;
    NoFields();
  }

  function EntryLines(es: seq<Endpoint>, k: nat): seq<string>
    requires k <= |es|
  {
    seq(|es| - k, j requires 0 <= j < |es| - k => Entry(es, k + j))
  }

  lemma {:induction false} SplitEntries(es: seq<Endpoint>, k: nat)
    requires k <= |es| && AllValid(es)
    ensures Split(Entries(es, k) + END + "\n", '\n') == EntryLines(es, k) + [END, ""]
    decreases |es| - k
  {
    hide ValidEndpoint, Split, Entry;
    MarkerShape();
    if k == |es| {
      SplitAtFirst(END, "", '\n');
      SplitNone("", '\n');
      assert Entries(es, k) + END + "\n" == END + ['\n'] + "";
    } else {
      EntryAlphabet(es, k);
      SplitEntries(es, k + 1);
      var rest := Entries(es, k + 1) + END + "\n";
      SplitAtFirst(Entry(es, k), rest, '\n');
      assert Entries(es, k) + END + "\n" == Entry(es, k) + ['\n'] + rest;
      assert EntryLines(es, k) == [Entry(es, k)] + EntryLines(es, k + 1);
    }
  }

  lemma BlockTextLines(es: seq<Endpoint>)
    requires AllValid(es)
    ensures Split("\n\n" + Block(es), '\n') == ["", "", BEGIN] + EntryLines(es, 0) + [END, ""]
  {
    hide AllValid, Split, Entries, EntryLines;
    MarkerShape();
    var rest := Entries(es, 0) + END + "\n";
    SplitEntries(es, 0);
    SplitAtFirst(BEGIN, rest, '\n');
    assert Block(es) == BEGIN + ['\n'] + rest;
    SplitAtFirst("", Block(es), '\n');
    assert "\n" + Block(es) == "" + ['\n'] + Block(es);
    SplitAtFirst("", "\n" + Block(es), '\n');
    assert "\n\n" + Block(es) == "" + ['\n'] + ("\n" + Block(es));
  }

  lemma GlueOntoEmpty(x: seq<string>, y: seq<string>)
    requires |x| >= 1 && |y| >= 1 && y[0] == ""
    ensures Glue(x, y) == x + y[1..]
  {
    assert x[|x| - 1] + "" == x[|x| - 1];
  }

  /** The lines of a merged text. */
  lemma MergedLines(text: string, es: seq<Endpoint>)
    requires AllValid(es)
    ensures Split(Merge(text, es), '\n')
         == Split(Base(text), '\n') + ["", BEGIN] + EntryLines(es, 0) + [END, ""]
  {
    hide AllValid, Base, Split, Block, EntryLines, Glue;
    BlockTextLines(es);
    var y := Split("\n\n" + Block(es), '\n');
    SplitOfConcat(Base(text), "\n\n" + Block(es), '\n');
    GlueOntoEmpty(Split(Base(text), '\n'), y);
    assert y[1..] == ["", BEGIN] + EntryLines(es, 0) + [END, ""];
    assert Merge(text, es) == Base(text) + ("\n\n" + Block(es));
  }

  lemma {:induction false} ManagedLinesSkip(xs: seq<string>, ys: seq<string>)
    requires BEGIN !in xs
    ensures ManagedLines(xs + [BEGIN] + ys) == UntilEnd(ys)
  {
    var zs := xs + [BEGIN] + ys;
    if xs == [] {
      assert zs[1..] == ys;
    } else {
      assert zs[1..] == xs[1..] + [BEGIN] + ys;
      ManagedLinesSkip(xs[1..], ys);
    }
  }

  lemma {:induction false} UntilEndStops(xs: seq<string>, ys: seq<string>)
    requires END !in xs
    ensures UntilEnd(xs + [END] + ys) == xs
  {
    var zs := xs + [END] + ys;
    if xs != [] {
      assert zs[1..] == xs[1..] + [END] + ys;
      UntilEndStops(xs[1..], ys);
    }
  }

  lemma {:induction false} PieceOccurs(s: string, k: nat)
    requires k < |Split(s, '\n')|
    ensures Contains(s, Split(s, '\n')[k])
  {
    var r := Split(s, '\n');
    if s == "" {
      assert OccursAt("", "", 0);
    } else {
      var r' := Split(s[1..], '\n');
      if s[0] == '\n' {
        if k == 0 {
          assert OccursAt(s, "", 0);
        } else {
          PieceOccurs(s[1..], k - 1);
          ShiftOccurrence(s, r[k]);
        }
      } else if k == 0 {
        FirstPieceIsPrefix(s[1..]);
        assert s[0..|r[0]|] == [s[0]] + s[1..][..|r'[0]|];
        assert OccursAt(s, r[0], 0);
      } else {
        PieceOccurs(s[1..], k);
        ShiftOccurrence(s, r[k]);
      }
    }
  }

  lemma ShiftOccurrence(s: string, p: string)
    requires s != "" && Contains(s[1..], p)
    ensures Contains(s, p)
  {
    var i :| OccursAt(s[1..], p, i);
    assert s[i + 1..i + 1 + |p|] == s[1..][i..i + |p|];
    assert OccursAt(s, p, i + 1);
  }

  lemma {:induction false} FirstPieceIsPrefix(s: string)
    ensures Split(s, '\n')[0] <= s
  {
    if s != "" && s[0] != '\n' {
      FirstPieceIsPrefix(s[1..]);
    }
  }

  lemma BlockLines(before: seq<string>, es: seq<Endpoint>, after: seq<string>)
    requires AllValid(es) && BEGIN !in before
    ensures ManagedLines(before + [BEGIN] + (EntryLines(es, 0) + [END] + after)) == EntryLines(es, 0)
  {
    hide ValidEndpoint, Entry, ManagedLines, UntilEnd;
    var entries := EntryLines(es, 0);
    ManagedLinesSkip(before, entries + [END] + after);
    MarkerShape();
    forall k | 0 <= k < |entries| ensures entries[k] != END {
      EntryAlphabet(es, k);
      assert END[0] in END;
    }
    UntilEndStops(entries, after);
  }

  /** No line of what a merge keeps is a begin marker. */
  lemma BaseLinesUnmarked(text: string)
    requires !Contains(Strip(text), BEGIN)
    ensures BEGIN !in Split(Base(text), '\n')
  {
    hide Split, Base, Strip, Contains;
    BaseMarkers(text);
    var base := Split(Base(text), '\n');
    forall k | 0 <= k < |base| ensures base[k] != BEGIN {
      PieceOccurs(Base(text), k);
    }
  }

  lemma RegroupLines(base: seq<string>, empty: string, begin: string, entries: seq<string>, end: string)
    ensures base + [empty, begin] + entries + [end, empty] == (base + [empty]) + [begin] + (entries + [end] + [empty])
  {
    assert [empty, begin] == [empty] + [begin];
    assert [end, empty] == [end] + [empty];
  }

  /** The managed lines of a merged text. */
  lemma ManagedLinesOfMerge(text: string, es: seq<Endpoint>)
    requires AllValid(es) && !Contains(Strip(text), BEGIN)
    ensures ManagedLines(Split(Merge(text, es), '\n')) == EntryLines(es, 0)
  {
    hide AllValid, Split, Merge, Base, Strip, ManagedLines, Contains, EntryLines;
    MergedLines(text, es);
    BaseLinesUnmarked(text);
    var base := Split(Base(text), '\n');
    RegroupLines(base, "", BEGIN, EntryLines(es, 0), END);
    BlockLines(base + [""], es, [""]);
  }

  /** Reading a merged file line by line recovers the ordered endpoint list. */
  lemma ReadBackOfMerge(text: string, es: seq<Endpoint>)
    requires AllValid(es) && !Contains(Strip(text), BEGIN)
    ensures var r := ReadBack(Merge(text, es));
            && |r| == |es|
            && forall k :: 0 <= k < |es| ==> r[k] == [LocalIP(es[k], k), es[k].host]
  {
    hide ValidEndpoint, Split, Merge, Entry, Fields, Strip, ManagedLines, LocalIP, Contains;
    ManagedLinesOfMerge(text, es);
    var entries := EntryLines(es, 0);
    forall k | 0 <= k < |es|
      ensures Fields(entries[k]) == [LocalIP(es[k], k), es[k].host]
    {
      EntryFields(es, k);
    }
  }
}

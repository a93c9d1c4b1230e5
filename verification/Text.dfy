/** The string operations of Go's `strings` package that the program relies on.
    A `char` stands for one byte of a Go string. */
module Text {

  datatype Option<+T> = None | Some(value: T)

  // ---------------------------------------------------------------- searching

  predicate OccursAt(s: string, p: string, i: int) {
    0 <= i && i + |p| <= |s| && s[i..i + |p|] == p
  }

  ghost predicate Contains(s: string, p: string) {
    exists i :: OccursAt(s, p, i)
  }

  /** `strings.Index`: the first occurrence of `p`, or -1. */
  function Index(s: string, p: string): (r: int)
    ensures r == -1 || (0 <= r <= |s| - |p| && OccursAt(s, p, r))
    ensures forall i :: OccursAt(s, p, i) ==> 0 <= r <= i
  {
    IndexFrom(s, p, 0)
  }

  function IndexFrom(s: string, p: string, from: nat): (r: int)
    ensures r == -1 || (from <= r && OccursAt(s, p, r))
    ensures forall i :: from <= i && OccursAt(s, p, i) ==> 0 <= r <= i
    decreases |s| - from
  {
    if from + |p| > |s| then -1
    else if OccursAt(s, p, from) then from
    else IndexFrom(s, p, from + 1)
  }

  /** Inside a concatenation, an occurrence that begins with a character found
      nowhere else in the pattern lies entirely in one part, provided the second
      part does not continue a partial match. */
  lemma OccurrenceSplits(a: string, b: string, p: string, i: int)
    requires OccursAt(a + b, p, i)
    requires p != "" && forall k :: 0 < k < |p| ==> p[k] != p[0]
    requires b == "" || b[0] == p[0] || b[0] !in p
    ensures OccursAt(a, p, i) || (i >= |a| && OccursAt(b, p, i - |a|))
  {
    var t := a + b;
    assert forall j :: i <= j < i + |p| ==> t[j] == t[i..i + |p|][j - i] == p[j - i];
    assert b != "" ==> t[|a|] == b[0];
    if i + |p| <= |a| {
      assert a[i..i + |p|] == t[i..i + |p|];
    } else if i >= |a| {
      assert b[i - |a|..i - |a| + |p|] == t[i..i + |p|];
    } else {
      assert false;
    }
  }

  // ----------------------------------------------------------------- trimming

  function TrimRight(s: string, cut: set<char>): (r: string)
    ensures r <= s
    ensures r == "" || r[|r| - 1] !in cut
    ensures forall k :: |r| <= k < |s| ==> s[k] in cut
  {
    if s != "" && s[|s| - 1] in cut then TrimRight(s[..|s| - 1], cut) else s
  }

  function TrimLeft(s: string, cut: set<char>): (r: string)
    ensures |r| <= |s| && r == s[|s| - |r|..]
    ensures r == "" || r[0] !in cut
    ensures forall k :: 0 <= k < |s| - |r| ==> s[k] in cut
  {
    if s != "" && s[0] in cut then
      var r := TrimLeft(s[1..], cut);
      assert s[1..][|s| - 1 - |r|..] == s[|s| - |r|..];
      assert forall k :: 1 <= k < |s| - |r| ==> s[k] == s[1..][k - 1];
      r
    else s
  }

  lemma TrimRightUnique(s: string, t: string, cut: set<char>)
    requires t == "" || t[|t| - 1] !in cut
    requires forall c :: c in s ==> c in cut
    ensures TrimRight(t + s, cut) == t
  {
    var u := t + s;
    var r := TrimRight(u, cut);
    assert forall j :: |t| <= j < |u| ==> u[j] in cut;
    assert t != "" ==> u[|t| - 1] !in cut;
    assert r == u[..|t|] == t;
  }

  /** The characters of a line end. */
  const CRLF: set<char> := {'\r', '\n'}

  /** The ASCII part of `unicode.IsSpace`. */
  const SPACE: set<char> := {' ', '\t', '\n', 11 as char, 12 as char, '\r'}

  /** Blank, tab, line feed, vertical tab, form feed and carriage return. */
  lemma WhiteSpace(c: char)
    ensures c in SPACE <==> c as int == 32 || 9 <= c as int <= 13
  {
  }

  predicate MadeOf(s: string, cut: set<char>) {
    forall c :: c in s ==> c in cut
  }

  /** Nothing is left exactly of a text made of cut characters, and else the ends are
      other characters. */
  predicate TrimmedTo(s: string, r: string, cut: set<char>) {
    (r == "" <==> MadeOf(s, cut)) && (r != "" ==> r[0] !in cut && r[|r| - 1] !in cut)
  }

  function Trim(s: string, cut: set<char>): (r: string)
    ensures TrimmedTo(s, r, cut)
  {
    hide TrimmedTo;
    TrimEnds(s, cut);
    TrimLeft(TrimRight(s, cut), cut)
  }

  lemma TrimEnds(s: string, cut: set<char>)
    ensures TrimmedTo(s, TrimLeft(TrimRight(s, cut), cut), cut)
  {
    hide TrimLeft, TrimRight;
    var t := TrimRight(s, cut);
    var r := TrimLeft(t, cut);
    if r != "" {
      assert r[|r| - 1] == t[|t| - 1];
      assert r[0] == t[|t| - |r|] == s[|t| - |r|];
      assert s[|t| - |r|] in s;
    } else {
      forall c | c in s ensures c in cut {
        var k :| 0 <= k < |s| && s[k] == c;
        assert k < |t| ==> t[k] == s[k];
      }
    }
  }

  /** `strings.TrimSpace`. */
  function TrimSpace(s: string): (r: string)
    ensures TrimmedTo(s, r, SPACE)
  {
    Trim(s, SPACE)
  }

  /** What is trimmed off the front is white space. */
  lemma TrimSpaceCuts(s: string)
    requires TrimSpace(s) != ""
    ensures exists k :: 0 <= k < |s| && TrimSpace(s) <= s[k..] && forall j :: 0 <= j < k ==> s[j] in SPACE
  {
    hide TrimLeft, TrimRight;
    var t := TrimRight(s, SPACE);
    var r := TrimLeft(t, SPACE);
    var k := |t| - |r|;
    assert s[k..][..|r|] == t[k..];
    assert r <= s[k..];
    assert forall j :: 0 <= j < k ==> s[j] == t[j];
    assert 0 <= k < |s| && TrimSpace(s) <= s[k..] && forall j :: 0 <= j < k ==> s[j] in SPACE;
  }

  lemma TrimSpaceOfTight(s: string)
    requires s == "" || (s[0] !in SPACE && s[|s| - 1] !in SPACE)
    ensures TrimSpace(s) == s
  {
  }

  /** White space trimmed at the end in two goes is white space trimmed at once. */
  lemma TrimSpaceOfTrimmed(s: string, cut: set<char>)
    requires cut <= SPACE
    ensures TrimSpace(TrimRight(s, cut)) == TrimSpace(s)
  {
    hide TrimRight, TrimLeft, SPACE;
    var t, u := TrimRight(s, SPACE), TrimRight(s, cut);
    assert t != "" ==> s[|t| - 1] == t[|t| - 1];
    assert |t| <= |u|;
    var rest := u[|t|..];
    assert u == t + rest;
    forall c | c in rest ensures c in SPACE {
      var k :| 0 <= k < |rest| && rest[k] == c;
      assert s[|t| + k] == c;
    }
    TrimRightUnique(rest, t, SPACE);
  }

  // ------------------------------------------------------ splitting and joining

  /** `strings.Split` for a one-byte separator. */
  function Split(s: string, sep: char): (r: seq<string>)
    ensures |r| >= 1
    ensures forall k :: 0 <= k < |r| ==> sep !in r[k]
  {
    if s == "" then [""]
    else
      var r := Split(s[1..], sep);
      if s[0] == sep then [""] + r else [[s[0]] + r[0]] + r[1..]
  }

  function Join(parts: seq<string>, sep: char): string
    requires |parts| >= 1
  {
    if |parts| == 1 then parts[0] else parts[0] + [sep] + Join(parts[1..], sep)
  }

  lemma {:induction false} JoinOfSplit(s: string, sep: char)
    ensures Join(Split(s, sep), sep) == s
  {
    if s != "" {
      var r := Split(s[1..], sep);
      JoinOfSplit(s[1..], sep);
      if s[0] == sep {
        assert Split(s, sep)[1..] == r;
      } else {
        assert Split(s, sep)[1..] == r[1..];
      }
    }
  }

  lemma {:induction false} SplitAtFirst(p: string, rest: string, sep: char)
    requires sep !in p
    ensures Split(p + [sep] + rest, sep) == [p] + Split(rest, sep)
  {
    var s := p + [sep] + rest;
    if p == "" {
      assert s[1..] == rest;
    } else {
      assert s[1..] == p[1..] + [sep] + rest;
      SplitAtFirst(p[1..], rest, sep);
      assert [p[0]] + p[1..] == p;
    }
  }

  lemma {:induction false} SplitNone(s: string, sep: char)
    requires sep !in s
    ensures Split(s, sep) == [s]
  {
    if s != "" {
      SplitNone(s[1..], sep);
      assert [s[0]] + s[1..] == s;
    }
  }

  lemma {:induction false} SplitOfJoin(parts: seq<string>, sep: char)
    requires |parts| >= 1
    requires forall k :: 0 <= k < |parts| ==> sep !in parts[k]
    ensures Split(Join(parts, sep), sep) == parts
  {
    if |parts| == 1 {
      SplitNone(parts[0], sep);
    } else {
      SplitOfJoin(parts[1..], sep);
      SplitAtFirst(parts[0], Join(parts[1..], sep), sep);
    }
  }

  function Glue(x: seq<string>, y: seq<string>): seq<string>
    requires |x| >= 1 && |y| >= 1
  {
    x[..|x| - 1] + [x[|x| - 1] + y[0]] + y[1..]
  }

  lemma GlueCons(h: string, x: seq<string>, y: seq<string>)
    requires |x| >= 1 && |y| >= 1
    ensures Glue([h] + x, y) == [h] + Glue(x, y)
  {
  }

  lemma GlueExtend(c: char, x: seq<string>, y: seq<string>)
    requires |x| >= 1 && |y| >= 1
    ensures Glue([[c] + x[0]] + x[1..], y) == [[c] + Glue(x, y)[0]] + Glue(x, y)[1..]
  {
    if |x| == 1 {
      assert [c] + (x[0] + y[0]) == ([c] + x[0]) + y[0];
      assert x[1..] == [];
    }
  }

  /** Splitting a concatenation glues the last piece of one part to the first of the other. */
  lemma {:induction false} SplitOfConcat(a: string, b: string, sep: char)
    ensures Split(a + b, sep) == Glue(Split(a, sep), Split(b, sep))
  {
    if a == "" {
      var y := Split(b, sep);
      assert a + b == b && "" + y[0] == y[0] && y == [y[0]] + y[1..];
    } else {
      assert (a + b)[1..] == a[1..] + b;
      SplitOfConcat(a[1..], b, sep);
      var x, y := Split(a[1..], sep), Split(b, sep);
      if a[0] == sep {
        GlueCons("", x, y);
      } else {
        GlueExtend(a[0], x, y);
      }
    }
  }

  // ------------------------------------------------------------------- fields

  function Word(s: string): (w: string)
    ensures w <= s && forall c :: c in w ==> c !in SPACE
    ensures |w| < |s| ==> s[|w|] in SPACE
  {
    if s == "" || s[0] in SPACE then "" else [s[0]] + Word(s[1..])
  }

  /** `strings.Fields`: the maximal runs of non-space characters. */
  function Fields(s: string): (r: seq<string>)
    ensures forall k :: 0 <= k < |r| ==> IsToken(r[k])
    decreases |s|
  {
    var t := TrimLeft(s, SPACE);
    if t == "" then [] else
      var w := Word(t);
      [w] + Fields(t[|w|..])
  }

  predicate IsToken(w: string) {
    w != "" && forall c :: c in w ==> c !in SPACE
  }

  lemma NoFields()
    ensures Fields("") == []
  {
  }

  lemma {:induction false} WordOf(w: string, rest: string)
    requires forall c :: c in w ==> c !in SPACE
    requires rest == "" || rest[0] in SPACE
    ensures Word(w + rest) == w
  {
    if w == "" {
      assert w + rest == rest;
    } else {
      assert (w + rest)[1..] == w[1..] + rest;
      WordOf(w[1..], rest);
    }
  }

  lemma {:induction false} TrimLeftSkips(pad: string, s: string)
    requires forall c :: c in pad ==> c in SPACE
    requires s == "" || s[0] !in SPACE
    ensures TrimLeft(pad + s, SPACE) == s
  {
    if pad == "" {
      assert pad + s == s;
    } else {
      assert (pad + s)[1..] == pad[1..] + s;
      TrimLeftSkips(pad[1..], s);
    }
  }

  /** One field after some padding, then whatever the rest holds. */
  lemma FieldsStep(pad: string, w: string, rest: string)
    requires forall c :: c in pad ==> c in SPACE
    requires IsToken(w)
    requires rest == "" || rest[0] in SPACE
    ensures Fields(pad + w + rest) == [w] + Fields(rest)
  {
    var t := w + rest;
    assert pad + w + rest == pad + t;
    assert t[0] == w[0] && w[0] in w;
    TrimLeftSkips(pad, t);
    WordOf(w, rest);
    assert t[|w|..] == rest;
  }

  lemma FieldsOfJoin(tokens: seq<string>)
    requires |tokens| >= 1
    requires forall k :: 0 <= k < |tokens| ==> IsToken(tokens[k])
    ensures Fields(Join(tokens, ' ')) == tokens
  {
    FieldsOfPaddedJoin("", tokens);
    assert "" + Join(tokens, ' ') == Join(tokens, ' ');
  }

  lemma JoinCons(pad: string, tokens: seq<string>, rest: string)
    requires |tokens| > 1 && rest == Join(tokens[1..], ' ')
    ensures pad + Join(tokens, ' ') == pad + tokens[0] + (" " + rest)
  {
    var first := tokens[0];
    assert Join(tokens, ' ') == first + [' '] + rest;
    Regroup(pad, first, [' '], rest);
  }

  lemma Regroup(a: string, b: string, c: string, d: string)
    ensures a + (b + c + d) == a + b + (c + d)
  {
  }

  lemma {:induction false} FieldsOfPaddedJoin(pad: string, tokens: seq<string>)
    requires |tokens| >= 1
    requires forall c :: c in pad ==> c in SPACE
    requires forall k :: 0 <= k < |tokens| ==> IsToken(tokens[k])
    ensures Fields(pad + Join(tokens, ' ')) == tokens
    decreases |tokens|
  {
    hide Fields;
    if |tokens| == 1 {
      FieldsStep(pad, tokens[0], "");
      NoFields();
      assert pad + tokens[0] + "" == pad + tokens[0];
    } else {
      var rest := Join(tokens[1..], ' ');
      FieldsOfPaddedJoin(" ", tokens[1..]);
      assert (" " + rest)[0] == ' ';
      FieldsStep(pad, tokens[0], " " + rest);
      JoinCons(pad, tokens, rest);
      assert [tokens[0]] + tokens[1..] == tokens;
    }
  }

  lemma {:induction false} JoinIsTight(tokens: seq<string>)
    requires |tokens| >= 1
    requires forall k :: 0 <= k < |tokens| ==> IsToken(tokens[k])
    ensures var s := Join(tokens, ' '); s != "" && s[0] !in SPACE && s[|s| - 1] !in SPACE
    ensures Join(tokens, ' ')[0] == tokens[0][0]
  {
    assert tokens[0][0] in tokens[0];
    assert tokens[0][|tokens[0]| - 1] in tokens[0];
    if |tokens| > 1 {
      JoinIsTight(tokens[1..]);
    }
  }

  // ----------------------------------------------------------------- lower case

  function Lower(c: char): char {
    if 'A' <= c <= 'Z' then (c as int + 32) as char else c
  }

  /** The letters in order, and the digits. */
  const CAPITALS := "ABCDEFGHIJKLMNOPQRSTUVWXYZ"
  const SMALL_LETTERS := "abcdefghijklmnopqrstuvwxyz"
  const DIGITS := "0123456789"

  lemma CapitalsInOrder()
    ensures forall k :: 0 <= k < 26 ==> CAPITALS[k] as int == 'A' as int + k
  {
  }

  lemma SmallLettersInOrder()
    ensures forall k :: 0 <= k < 26 ==> SMALL_LETTERS[k] as int == 'a' as int + k
  {
  }

  lemma IsCapital(c: char)
    ensures c in CAPITALS <==> 'A' <= c <= 'Z'
  {
    CapitalsInOrder();
    InOrder(CAPITALS, 'A', c);
  }

  lemma IsSmall(c: char)
    ensures c in SMALL_LETTERS <==> 'a' <= c <= 'z'
  {
    SmallLettersInOrder();
    InOrder(SMALL_LETTERS, 'a', c);
  }

  lemma InOrder(letters: string, first: char, c: char)
    requires forall k :: 0 <= k < |letters| ==> letters[k] as int == first as int + k
    ensures c in letters <==> first as int <= c as int < first as int + |letters|
  {
    if first as int <= c as int < first as int + |letters| {
      assert letters[c as int - first as int] == c;
    }
  }

  lemma IsDigitCharacter(c: char)
    ensures c in DIGITS <==> '0' <= c <= '9'
  {
  }

  /** The capital letters become their small letters, and nothing else changes. */
  lemma LowerLetters(c: char)
    ensures forall k :: 0 <= k < 26 ==> Lower(CAPITALS[k]) == SMALL_LETTERS[k]
    ensures c !in CAPITALS ==> Lower(c) == c
  {
    IsCapital(c);
  }

  /** `strings.ToLower` on ASCII text. */
  function ToLower(s: string): (r: string)
    ensures |r| == |s|
    ensures forall k :: 0 <= k < |s| ==> r[k] == Lower(s[k])
  {
    seq(|s|, k requires 0 <= k < |s| => Lower(s[k]))
  }
}

/**
 * The regular expressions of parser/parser.go.
 *
 * regexp.QuoteMeta escapes a version so that the pattern matches it
 * literally (QuoteMeta, Unquote, UnquoteQuoteMeta), and the default section
 * pattern
 *
 *   (?s)(?P<header>## %s[^\n]*)\n(?P<body>.+?)\n(?:## .+|$)
 *
 * with %s replaced by the escaped version is modelled by a hand-written
 * scanner (DefaultSearch) proved against RE2's leftmost-first rule. Flag `s`
 * lets `.` match '\n'; there is no `m` flag, so `$` is the end of the text,
 * and there is no `^`, so the header may start anywhere (after a '#' or in
 * the middle of a line) and the version may be followed by any non-newline
 * byte.
 *
 * A parse is fixed by three positions: p, where "## " starts; e, the '\n'
 * ending the header (the greedy [^\n]* leaves no choice: e is the first
 * '\n' after the version); and b, the '\n' ending the body. The lazy body
 * takes the smallest b, at least two past e, that is followed by "## " and
 * one more byte or by nothing. Either alternative of the tail then runs to
 * the end of the text, so every match ends at |s|.
 */
module SectionPattern {
  import opened Wrappers
  import opened Strings

  // ---- QuoteMeta ----

  /** The bytes regexp.QuoteMeta escapes. */
  predicate IsSpecial(c: char) {
    || c == '\\' || c == '.' || c == '+' || c == '*' || c == '?' || c == '(' || c == ')'
    || c == '|' || c == '[' || c == ']' || c == '{' || c == '}' || c == '^' || c == '$'
  }

  /** regexp.QuoteMeta: a backslash before every special byte. */
  function QuoteMeta(v: string): (q: string)
    ensures |q| >= |v|
  {
    if v == [] then []
    else (if IsSpecial(v[0]) then ['\\', v[0]] else [v[0]]) + QuoteMeta(v[1..])
  }

  /** q is a sequence of literal atoms: plain bytes and escaped special ones. */
  predicate IsLiteralPattern(q: string) {
    if q == [] then true
    else if q[0] == '\\' then |q| >= 2 && IsSpecial(q[1]) && IsLiteralPattern(q[2..])
    else !IsSpecial(q[0]) && IsLiteralPattern(q[1..])
  }

  /** The text a literal pattern matches. */
  function Unquote(q: string): (v: string)
    requires IsLiteralPattern(q)
    ensures |v| <= |q|
  {
    if q == [] then []
    else if q[0] == '\\' then [q[1]] + Unquote(q[2..])
    else [q[0]] + Unquote(q[1..])
  }

  /**
   * QuoteMeta's result is a literal pattern and matches exactly the text it
   * was made from, so the pattern treats the version literally.
   */
  lemma {:induction false} UnquoteQuoteMeta(v: string)
    ensures IsLiteralPattern(QuoteMeta(v))
    ensures Unquote(QuoteMeta(v)) == v
  {
    if v != [] {
      UnquoteQuoteMeta(v[1..]);
      var q := QuoteMeta(v);
      if IsSpecial(v[0]) {
        assert q[2..] == QuoteMeta(v[1..]);
      } else {
        assert q[1..] == QuoteMeta(v[1..]);
      }
    }
  }

  /** A version without special bytes is left as it is. */
  lemma {:induction false} QuoteMetaPlain(v: string)
    requires forall i :: 0 <= i < |v| ==> !IsSpecial(v[i])
    ensures QuoteMeta(v) == v
  {
    if v != [] {
      QuoteMetaPlain(v[1..]);
    }
  }

  lemma QuoteMetaCons(c: char, v: string)
    ensures QuoteMeta([c] + v) == (if IsSpecial(c) then ['\\', c] else [c]) + QuoteMeta(v)
  {
    assert ([c] + v)[1..] == v;
  }

  lemma QuoteMetaExampleTail()
    ensures QuoteMeta(['.', '1', '2', '.', '0']) == ['\\', '.', '1', '2', '\\', '.', '0']
  {
    assert QuoteMeta(['.', '0']) == ['\\', '.', '0'] by {
      QuoteMetaCons('.', ['0']);
      QuoteMetaCons('0', []);
    }
    assert QuoteMeta(['2', '.', '0']) == ['2', '\\', '.', '0'] by {
      QuoteMetaCons('2', ['.', '0']);
    }
    assert QuoteMeta(['1', '2', '.', '0']) == ['1', '2', '\\', '.', '0'] by {
      QuoteMetaCons('1', ['2', '.', '0']);
    }
    QuoteMetaCons('.', ['1', '2', '.', '0']);
  }

  /** The dots of a version number are escaped. */
  lemma QuoteMetaVersionExample()
    ensures QuoteMeta("0.12.0") == "0\\.12\\.0"
  {
    assert QuoteMeta(['0', '.', '1', '2', '.', '0']) == ['0', '\\', '.', '1', '2', '\\', '.', '0'] by {
      QuoteMetaExampleTail();
      QuoteMetaCons('0', ['.', '1', '2', '.', '0']);
    }
    assert "0.12.0" == ['0', '.', '1', '2', '.', '0'];
    assert "0\\.12\\.0" == ['0', '\\', '.', '1', '2', '\\', '.', '0'];
  }

  // ---- what a compiled pattern reports ----

  /** The group names and FindSubmatchIndex's result (None for no match). */
  datatype RawSearch = RawSearch(names: seq<string>, loc: Option<seq<int>>)

  /**
   * RE2's shape guarantee: group 0 is the whole match, and a match has a
   * (from, to) pair for every group.
   */
  type Search = x: RawSearch | |x.names| >= 1 && (x.loc.Some? ==> |x.loc.value| == 2 * |x.names|)
    witness RawSearch([""], None)

  /** defaultSectionReFmt, parser/parser.go:11-13 (with %s still in it). */
  const DefaultSectionReFmt: string := "(?s)(?P<header>## %s[^\\n]*)\n(?P<body>.+?)\n(?:## .+|$)"

  /** SubexpNames of the default pattern. */
  const DefaultNames: seq<string> := ["", "header", "body"]

  // ---- the specification of the default pattern ----

  /** After the body's final '\n' comes "## " and at least one byte, or nothing. */
  predicate Terminator(s: string, b: nat) {
    b < |s| && s[b] == '\n' && ((b + 5 <= |s| && LiteralAt(s, b + 1, "## ")) || b + 1 == |s|)
  }

  /** Header s[p..e] and body s[e + 1..b] are a way for the pattern to match at p. */
  ghost predicate DefaultValid(s: string, lit: string, p: nat, e: nat, b: nat) {
    && LiteralAt(s, p, "## " + lit)
    && p + 3 + |lit| <= e < |s|
    && s[e] == '\n'
    && (forall k :: p + 3 + |lit| <= k < e ==> s[k] != '\n')
    && e + 2 <= b
    && Terminator(s, b)
  }

  /** Leftmost first: no parse starts earlier, and the lazy body is the shortest. */
  ghost predicate DefaultLeftmost(s: string, lit: string, p: nat, e: nat, b: nat) {
    && DefaultValid(s, lit, p, e, b)
    && (forall p': nat, e': nat, b': nat :: p' < p ==> !DefaultValid(s, lit, p', e', b'))
    && (forall b': nat :: b' < b ==> !DefaultValid(s, lit, p, e, b'))
  }

  ghost predicate DefaultNoMatch(s: string, lit: string) {
    forall p: nat, e: nat, b: nat :: !DefaultValid(s, lit, p, e, b)
  }

  /** The greedy [^\n]* leaves no choice of e. */
  lemma HeaderEndForced(s: string, lit: string, p: nat, e: nat, b: nat, e': nat, b': nat)
    requires DefaultValid(s, lit, p, e, b) && DefaultValid(s, lit, p, e', b')
    ensures e == e'
  {
  }

  // ---- the scanner ----

  /** The smallest b >= from ending a body, if any. */
  function BodyEnd(s: string, from: nat): (r: Option<nat>)
    ensures r.Some? ==> from <= r.value && Terminator(s, r.value)
    ensures r.Some? ==> forall k :: from <= k < r.value ==> !Terminator(s, k)
    ensures r.None? ==> forall k :: from <= k ==> !Terminator(s, k)
    decreases |s| - from
  {
    if from >= |s| then None
    else if Terminator(s, from) then Some(from)
    else BodyEnd(s, from + 1)
  }

  /** Tries the pattern at p and, failing that, at every later position. */
  function ScanFrom(s: string, lit: string, p: nat): (r: Option<(nat, nat, nat)>)
    ensures r.Some? ==> p <= r.value.0 && DefaultValid(s, lit, r.value.0, r.value.1, r.value.2)
    decreases |s| - p
  {
    if p + 3 + |lit| > |s| then None
    else if LiteralAt(s, p, "## " + lit) then
      var e := FirstNewline(s, p + 3 + |lit|);
      var b := if e < |s| then BodyEnd(s, e + 2) else None;
      if b.Some? then Some((p, e, b.value)) else ScanFrom(s, lit, p + 1)
    else ScanFrom(s, lit, p + 1)
  }

  /** Where the scanner gives up on p, the pattern has no parse at p. */
  lemma NoParseWhereScanFails(s: string, lit: string, p: nat)
    requires p + 3 + |lit| <= |s| && LiteralAt(s, p, "## " + lit)
    requires var e := FirstNewline(s, p + 3 + |lit|);
      !(e < |s| && BodyEnd(s, e + 2).Some?)
    ensures forall e': nat, b': nat :: !DefaultValid(s, lit, p, e', b')
  {
    forall e': nat, b': nat | DefaultValid(s, lit, p, e', b') ensures false {
    }
  }

  /** ScanFrom finds the leftmost parse at or after p, and nothing when there is none. */
  lemma {:induction false} ScanFromIsLeftmostFirst(s: string, lit: string, p: nat)
    ensures ScanFrom(s, lit, p).Some? ==>
      var x := ScanFrom(s, lit, p).value;
      && (forall p': nat, e': nat, b': nat :: p <= p' < x.0 ==> !DefaultValid(s, lit, p', e', b'))
      && (forall b': nat :: b' < x.2 ==> !DefaultValid(s, lit, x.0, x.1, b'))
    ensures ScanFrom(s, lit, p).None? ==> forall p': nat, e': nat, b': nat :: p <= p' ==> !DefaultValid(s, lit, p', e', b')
    decreases |s| - p
  {
    if p + 3 + |lit| > |s| {
    } else if LiteralAt(s, p, "## " + lit) {
      var e := FirstNewline(s, p + 3 + |lit|);
      var b := if e < |s| then BodyEnd(s, e + 2) else None;
      if b.Some? {
        forall b': nat | b' < b.value ensures !DefaultValid(s, lit, p, e, b') {
        }
      } else {
        NoParseWhereScanFails(s, lit, p);
        ScanFromIsLeftmostFirst(s, lit, p + 1);
        NoParseExtends(s, lit, p, ScanFrom(s, lit, p + 1));
      }
    } else {
      ScanFromIsLeftmostFirst(s, lit, p + 1);
      NoParseExtends(s, lit, p, ScanFrom(s, lit, p + 1));
    }
  }

  /** A start with no parse extends the parse-free stretch before a later result. */
  lemma NoParseExtends(s: string, lit: string, p: nat, r: Option<(nat, nat, nat)>)
    requires forall e': nat, b': nat :: !DefaultValid(s, lit, p, e', b')
    requires r.Some? ==> p + 1 <= r.value.0 && forall p': nat, e': nat, b': nat :: p + 1 <= p' < r.value.0 ==> !DefaultValid(s, lit, p', e', b')
    requires r.None? ==> forall p': nat, e': nat, b': nat :: p + 1 <= p' ==> !DefaultValid(s, lit, p', e', b')
    ensures r.Some? ==> forall p': nat, e': nat, b': nat :: p <= p' < r.value.0 ==> !DefaultValid(s, lit, p', e', b')
    ensures r.None? ==> forall p': nat, e': nat, b': nat :: p <= p' ==> !DefaultValid(s, lit, p', e', b')
  {
  }

  /**
   * FindSubmatchIndex of the default pattern for the literal version lit:
   * [match from, match to, header from, header to, body from, body to].
   */
  function DefaultSearch(s: string, lit: string): (r: Search)
    ensures r.names == DefaultNames
  {
    match ScanFrom(s, lit, 0)
    case None => RawSearch(DefaultNames, None)
    case Some((p, e, b)) => RawSearch(DefaultNames, Some([p, |s|, p, e, e + 1, b]))
  }

  /**
   * DefaultSearch reports a match exactly when the pattern matches, and then
   * the leftmost-first parse, ending at the end of the text.
   */
  lemma DefaultSearchIsLeftmostFirst(s: string, lit: string)
    ensures DefaultSearch(s, lit).loc.None? <==> DefaultNoMatch(s, lit)
    ensures DefaultSearch(s, lit).loc.Some? ==>
      var loc := DefaultSearch(s, lit).loc.value;
      && loc[0] == loc[2] && loc[1] == |s| && loc[4] == loc[3] + 1
      && DefaultLeftmost(s, lit, loc[2], loc[3], loc[5])
  {
    ScanFromIsLeftmostFirst(s, lit, 0);
    var x := ScanFrom(s, lit, 0);
    if x.Some? {
      assert !DefaultNoMatch(s, lit) by {
        assert DefaultValid(s, lit, x.value.0, x.value.1, x.value.2);
      }
    }
  }

  /** There is one leftmost-first parse, so the reported ranges are determined. */
  lemma DefaultLeftmostUnique(s: string, lit: string, p: nat, e: nat, b: nat, p': nat, e': nat, b': nat)
    requires DefaultLeftmost(s, lit, p, e, b) && DefaultLeftmost(s, lit, p', e', b')
    ensures p == p' && e == e' && b == b'
  {
    assert !(p' < p) && !(p < p');
    HeaderEndForced(s, lit, p, e, b, e', b');
    assert !(b' < b) && !(b < b');
  }

  /** Conversely, the leftmost-first parse is what DefaultSearch reports. */
  lemma DefaultSearchFinds(s: string, lit: string, p: nat, e: nat, b: nat)
    requires DefaultLeftmost(s, lit, p, e, b)
    ensures DefaultSearch(s, lit).loc == Some([p, |s|, p, e, e + 1, b])
  {
    DefaultSearchIsLeftmostFirst(s, lit);
    var loc := DefaultSearch(s, lit).loc.value;
    DefaultLeftmostUnique(s, lit, p, e, b, loc[2], loc[3], loc[5]);
  }

  /** The document of the "matching unreleased version" case, as header line, body and rest. */
  const UnreleasedDoc: string := "## 0.12.0 (Unreleased)\n" + "\nsomething\n" + "\n## 0.11.0\n\ntesting\n"

  lemma UnreleasedPieces()
    ensures |UnreleasedDoc| == 54
    ensures UnreleasedDoc[..23] == "## 0.12.0 (Unreleased)\n"
    ensures UnreleasedDoc[23..34] == "\nsomething\n"
    ensures UnreleasedDoc[34..] == "\n## 0.11.0\n\ntesting\n"
  {
    ConcatPieces("## 0.12.0 (Unreleased)\n", "\nsomething\n", "\n## 0.11.0\n\ntesting\n");
  }

  /** Only a '\n' followed by "## " (or by the end of the text) ends a body. */
  lemma NotTerminator(s: string, k: nat)
    requires k + 1 < |s| && (s[k] != '\n' || s[k + 1] != '#')
    ensures !Terminator(s, k)
  {
    if k + 5 <= |s| {
      assert s[k + 1..k + 4][0] == s[k + 1];
    }
  }

  /** A '\n' followed by "## " and one more byte ends a body. */
  lemma TerminatorAt(s: string, b: nat)
    requires b + 5 <= |s| && s[b..b + 4] == "\n## "
    ensures Terminator(s, b)
  {
    assert s[b] == s[b..b + 4][0];
    assert s[b + 1..b + 4] == s[b..b + 4][1..];
  }

  /** The header of the unreleased document: "## 0.12.0" at 0, its line ending at 22. */
  lemma UnreleasedHeader()
    ensures LiteralAt(UnreleasedDoc, 0, "## 0.12.0")
    ensures forall k :: 9 <= k < 22 ==> UnreleasedDoc[k] != '\n'
    ensures UnreleasedDoc[22] == '\n'
  {
    var s, h := UnreleasedDoc, "## 0.12.0 (Unreleased)\n";
    UnreleasedPieces();
    assert s[0..9] == h[0..9] == "## 0.12.0";
    forall k | 9 <= k <= 22 ensures s[k] == h[k] {
      assert s[..23][k] == s[k];
    }
  }

  /** The unreleased body can only end at 34, before "## 0.11.0". */
  lemma UnreleasedBodyEnd()
    ensures forall k :: 24 <= k < 34 ==> !Terminator(UnreleasedDoc, k)
    ensures Terminator(UnreleasedDoc, 34)
  {
    var s, body, rest := UnreleasedDoc, "\nsomething\n", "\n## 0.11.0\n\ntesting\n";
    UnreleasedPieces();
    UnreleasedBodyLines();
    forall k | 24 <= k < 34 ensures !Terminator(s, k) {
      assert s[k] == body[k - 23] by { assert s[23..34][k - 23] == s[k]; }
      assert s[34] == rest[0] by { assert s[34..][0] == s[34]; }
      NotTerminator(s, k);
    }
    assert s[34..38] == s[34..][..4] == rest[..4] == "\n## ";
    TerminatorAt(s, 34);
  }

  /** The header is bytes 0 to 22, the body runs from 23 up to the '\n' before "## 0.11.0". */
  lemma DefaultSearchUnreleased()
    ensures DefaultSearch(UnreleasedDoc, "0.12.0").loc == Some([0, 54, 0, 22, 23, 34])
  {
    var s, lit := UnreleasedDoc, "0.12.0";
    UnreleasedPieces();
    UnreleasedHeader();
    UnreleasedBodyEnd();
    assert "## " + lit == "## 0.12.0";
    assert DefaultValid(s, lit, 0, 22, 34);
    assert DefaultLeftmost(s, lit, 0, 22, 34);
    DefaultSearchFinds(s, lit, 0, 22, 34);
  }

  /** Where the unreleased body has its line breaks. */
  lemma UnreleasedBodyLines()
    ensures forall m :: 0 < m < 10 ==> "\nsomething\n"[m] != '\n'
    ensures "\n## 0.11.0\n\ntesting\n"[0] == '\n'
  {
  }

  /** The header and body slices of the "matching unreleased version" case, trimmed. */
  lemma UnreleasedTrimmed()
    ensures TrimSpace(UnreleasedDoc[0..22]) == "## 0.12.0 (Unreleased)"
    ensures TrimSpace(UnreleasedDoc[23..34]) == "something"
  {
    UnreleasedPieces();
    assert UnreleasedDoc[0..22] == UnreleasedDoc[..23][..22] == "## 0.12.0 (Unreleased)";
    TrimSpaceKeeps("## 0.12.0 (Unreleased)");
    assert "\nsomething\n" == "\n" + "something" + "\n";
    TrimSpaceNewlines("something");
  }

  /** The document of the "matching released version - top" case, as header line, body and rest. */
  const ReleasedTopDoc: string :=
    "## 0.12.0\n" + "matching text\nwith newline\n" + "\n## 0.11.99\n\n - something\n - else\n"

  lemma ReleasedTopPieces()
    ensures |ReleasedTopDoc| == 71
    ensures ReleasedTopDoc[..10] == "## 0.12.0\n"
    ensures ReleasedTopDoc[10..37] == "matching text\nwith newline\n"
    ensures ReleasedTopDoc[37..] == "\n## 0.11.99\n\n - something\n - else\n"
  {
    ConcatPieces("## 0.12.0\n", "matching text\nwith newline\n", "\n## 0.11.99\n\n - something\n - else\n");
  }

  /** Where the released body has its line breaks: the first is followed by 'w', not "## ". */
  lemma ReleasedTopBodyLines()
    ensures forall m :: 0 <= m < 26 && m != 13 ==> "matching text\nwith newline\n"[m] != '\n'
    ensures "matching text\nwith newline\n"[14] == 'w'
    ensures "\n## 0.11.99\n\n - something\n - else\n"[0] == '\n'
  {
  }

  /** The header of the released document: "## 0.12.0" at 0 and nothing else on its line. */
  lemma ReleasedTopHeader()
    ensures LiteralAt(ReleasedTopDoc, 0, "## 0.12.0")
    ensures ReleasedTopDoc[9] == '\n'
  {
    var s, h := ReleasedTopDoc, "## 0.12.0\n";
    ReleasedTopPieces();
    assert s[0..9] == h[0..9] == "## 0.12.0";
    assert s[9] == h[9] by { assert s[..10][9] == s[9]; }
  }

  /** The released body can only end at 37, the blank line before "## 0.11.99". */
  lemma ReleasedTopBodyEnd()
    ensures forall k :: 11 <= k < 37 ==> !Terminator(ReleasedTopDoc, k)
    ensures Terminator(ReleasedTopDoc, 37)
  {
    var s, body, rest := ReleasedTopDoc, "matching text\nwith newline\n", "\n## 0.11.99\n\n - something\n - else\n";
    ReleasedTopPieces();
    ReleasedTopBodyLines();
    forall k | 11 <= k < 37 ensures !Terminator(s, k) {
      assert s[k] == body[k - 10] by { assert s[10..37][k - 10] == s[k]; }
      if k < 36 {
        assert s[k + 1] == body[k - 9] by { assert s[10..37][k - 9] == s[k + 1]; }
      } else {
        assert s[37] == rest[0] by { assert s[37..][0] == s[37]; }
      }
      NotTerminator(s, k);
    }
    assert s[37..41] == s[37..][..4] == rest[..4] == "\n## ";
    TerminatorAt(s, 37);
  }

  /** The body ends at the blank line before "## 0.11.99", not at the first '\n'. */
  lemma DefaultSearchReleasedTop()
    ensures DefaultSearch(ReleasedTopDoc, "0.12.0").loc == Some([0, 71, 0, 9, 10, 37])
  {
    var s, lit := ReleasedTopDoc, "0.12.0";
    ReleasedTopPieces();
    ReleasedTopHeader();
    ReleasedTopBodyEnd();
    assert "## " + lit == "## 0.12.0";
    assert DefaultValid(s, lit, 0, 9, 37);
    assert DefaultLeftmost(s, lit, 0, 9, 37);
    DefaultSearchFinds(s, lit, 0, 9, 37);
  }

  /** The header and body slices of the "matching released version - top" case, trimmed. */
  lemma ReleasedTopTrimmed()
    ensures TrimSpace(ReleasedTopDoc[0..9]) == "## 0.12.0"
    ensures TrimSpace(ReleasedTopDoc[10..37]) == "matching text\nwith newline"
  {
    ReleasedTopPieces();
    assert ReleasedTopDoc[0..9] == ReleasedTopDoc[..10][..9] == "## 0.12.0";
    TrimSpaceKeeps("## 0.12.0");
    ReleasedTopBodyTrimmed();
  }

  /** Trimming the two-line body drops its final '\n' and keeps the inner one. */
  lemma ReleasedTopBodyTrimmed()
    ensures TrimSpace("matching text\nwith newline\n") == "matching text\nwith newline"
  {
    assert "matching text\nwith newline\n" == "matching text\nwith newline" + "\n";
    TrimSpaceNewline("matching text\nwith newline");
  }

  /** The document of the "version not found" case. */
  const OtherVersionsDoc: string := "## 0.11.0" + "\n\nsomething\n\n" + "## 0.10.0" + "\n\ntesting\n"

  /** No "## 0.12.0" anywhere: the document has no '2' at all. */
  lemma DefaultSearchOtherVersions()
    ensures DefaultSearch(OtherVersionsDoc, "0.12.0").loc.None?
  {
    var s, lit := OtherVersionsDoc, "0.12.0";
    assert forall k :: 0 <= k < |s| ==> s[k] != '2';
    forall p: nat, e: nat, b: nat ensures !DefaultValid(s, lit, p, e, b) {
      if p + 9 <= |s| {
        assert s[p..p + 9][6] == s[p + 6];
      }
    }
    DefaultSearchIsLeftmostFirst(s, lit);
  }

  /** Nothing matches in an empty document. */
  lemma DefaultSearchEmpty(lit: string)
    ensures DefaultSearch("", lit).loc.None?
  {
  }

  /** No `^`: a deeper heading also matches, from its second '#'. */
  lemma DefaultSearchDeeperHeading()
    ensures DefaultSearch("#" + "## 0.12.0" + "\nx\n", "0.12.0").loc == Some([1, 13, 1, 10, 11, 12])
  {
    var s, lit := "#" + "## 0.12.0" + "\nx\n", "0.12.0";
    assert |s| == 13 && s[10] == '\n' && s[12] == '\n';
    assert !LiteralAt(s, 0, "## " + lit) by { assert s[2] != ("## " + lit)[2]; }
    assert LiteralAt(s, 1, "## " + lit);
    assert Terminator(s, 12);
    assert DefaultValid(s, lit, 1, 10, 12);
    assert DefaultLeftmost(s, lit, 1, 10, 12);
    DefaultSearchFinds(s, lit, 1, 10, 12);
  }

  /** Nor is the version delimited: a longer version with v as a prefix matches. */
  lemma DefaultSearchLongerVersion()
    ensures DefaultSearch("## 0.12.01" + "\nx\n", "0.12.0").loc == Some([0, 13, 0, 10, 11, 12])
  {
    var s, lit := "## 0.12.01" + "\nx\n", "0.12.0";
    assert |s| == 13 && s[10] == '\n' && s[12] == '\n' && s[9] != '\n';
    assert LiteralAt(s, 0, "## " + lit);
    assert Terminator(s, 12);
    assert DefaultValid(s, lit, 0, 10, 12);
    assert DefaultLeftmost(s, lit, 0, 10, 12);
    DefaultSearchFinds(s, lit, 0, 10, 12);
  }
}

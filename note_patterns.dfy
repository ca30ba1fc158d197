/**
 * The four release-note patterns of note.go (textInBodyREs), each as a
 * hand-written scanner proved against the matching rules of Go's RE2 engine:
 *
 *   (?ms)^```release-note\n(?P<note>.+)\n```
 *   (?ms)^```releasenote\n(?P<note>.+)\n```
 *   (?ms)^```release-note:(?P<type>[^\n]*)\n?(?P<note>.*)\n?```
 *   (?ms)^```releasenote:(?P<type>[^\n]*)\n?(?P<note>.*)\n?```
 *
 * Flag `m` makes `^` match at the start of the text and after every '\n';
 * flag `s` makes `.` match '\n' too. RE2 reports the leftmost match, and at
 * that start the parse a backtracking engine would find first: greedy
 * repetitions as long as possible, `?` taking its character when it can.
 * Because the note capture is greedy, a match runs to the LAST closing fence
 * it can reach, so no pattern ever matches twice in one text (AtMostOneMatch).
 */
module NotePatterns {
  import opened Wrappers
  import opened Strings

  /** A pattern is its marker word and whether a `:type` suffix follows it. */
  datatype Pattern = Untyped(marker: string) | Typed(marker: string)

  /** textInBodyREs, in source order. */
  const TextInBodyREs: seq<Pattern> :=
    [Untyped("release-note"), Untyped("releasenote"), Typed("release-note"), Typed("releasenote")]

  /** The literal text a match starts with. */
  function Opener(pat: Pattern): string {
    match pat
    case Untyped(m) => "```" + m + "\n"
    case Typed(m) => "```" + m + ":"
  }

  /** Regexp.SubexpNames: group 0 is the whole match and has no name. */
  function SubexpNames(pat: Pattern): seq<string> {
    match pat
    case Untyped(_) => ["", "note"]
    case Typed(_) => ["", "type", "note"]
  }

  /** Where `^` in multi-line mode matches. */
  predicate LineStart(s: string, p: nat) {
    p == 0 || (p <= |s| && s[p - 1] == '\n')
  }

  /**
   * The choices a parse of one pattern makes at a fixed start. Untyped:
   * where the greedy `.+` stops (the index of the closing "\n```"). Typed:
   * where `[^\n]*` stops, whether the first `\n?` takes a '\n', where `.*`
   * stops, and whether the second `\n?` takes a '\n'.
   */
  datatype Parse =
    | UntypedParse(noteEnd: nat)
    | TypedParse(typeEnd: nat, nl1: bool, noteEnd: nat, nl2: bool)

  function NoteStart(x: Parse): nat
    requires x.TypedParse?
  {
    x.typeEnd + (if x.nl1 then 1 else 0)
  }

  function FenceStart(x: Parse): nat
    requires x.TypedParse?
  {
    x.noteEnd + (if x.nl2 then 1 else 0)
  }

  ghost predicate TypedValid(s: string, t0: nat, x: Parse)
    requires x.TypedParse?
  {
    && t0 <= x.typeEnd <= |s|
    && (forall k :: t0 <= k < x.typeEnd ==> s[k] != '\n')
    && (x.nl1 ==> x.typeEnd < |s| && s[x.typeEnd] == '\n')
    && NoteStart(x) <= x.noteEnd <= |s|
    && (x.nl2 ==> x.noteEnd < |s| && s[x.noteEnd] == '\n')
    && LiteralAt(s, FenceStart(x), "```")
  }

  /** x is a way for pat to match s starting at p. */
  ghost predicate Valid(pat: Pattern, s: string, p: nat, x: Parse) {
    && LineStart(s, p)
    && LiteralAt(s, p, Opener(pat))
    && match pat
       case Untyped(_) =>
         x.UntypedParse? && p + |Opener(pat)| < x.noteEnd && LiteralAt(s, x.noteEnd, "\n```")
       case Typed(_) =>
         x.TypedParse? && TypedValid(s, p + |Opener(pat)|, x)
  }

  /** RE2's leftmost-first preference: x is tried no later than y. */
  ghost predicate Prefers(x: Parse, y: Parse) {
    match (x, y)
    case (UntypedParse(q), UntypedParse(q')) => q >= q'
    case (TypedParse(te, n1, ne, n2), TypedParse(te', n1', ne', n2')) =>
      || te > te'
      || (te == te' && ((n1 && !n1') || (n1 == n1' && (ne > ne' || (ne == ne' && (n2 || !n2'))))))
    case _ => false
  }

  /** x is the parse RE2 reports for a match starting at p. */
  ghost predicate LeftmostFirstAt(pat: Pattern, s: string, p: nat, x: Parse) {
    Valid(pat, s, p, x) && forall y :: Valid(pat, s, p, y) ==> Prefers(x, y)
  }

  ghost predicate NoMatchAt(pat: Pattern, s: string, p: nat) {
    forall y :: !Valid(pat, s, p, y)
  }

  /** Where a match that parses as x ends: just after its closing fence. */
  function ParseEnd(x: Parse): nat {
    match x
    case UntypedParse(q) => q + 4
    case TypedParse(_, _, _, _) => FenceStart(x) + 3
  }

  /** One element of FindAllStringSubmatch: the span and the text of every group. */
  datatype Match = Match(start: nat, end: nat, groups: seq<string>)

  function MatchOf(pat: Pattern, s: string, p: nat, x: Parse): (m: Match)
    requires Valid(pat, s, p, x)
    ensures m.start == p < m.end <= |s| && m.end == ParseEnd(x)
    ensures |m.groups| == |SubexpNames(pat)|
  {
    var end := ParseEnd(x);
    match x
    case UntypedParse(q) =>
      Match(p, end, [s[p..end], s[p + |Opener(pat)|..q]])
    case TypedParse(te, _, ne, _) =>
      Match(p, end, [s[p..end], s[p + |Opener(pat)|..te], s[NoteStart(x)..ne]])
  }

  // ---- the scanner ----

  /** The last occurrence of lit that starts in [from, hi]. */
  function LastLiteral(s: string, lit: string, from: nat, hi: nat): (r: Option<nat>)
    ensures r.Some? ==> from <= r.value <= hi && LiteralAt(s, r.value, lit)
    ensures forall k :: from <= k <= hi && LiteralAt(s, k, lit) ==> r.Some? && k <= r.value
    decreases hi
  {
    if hi < from then None
    else if LiteralAt(s, hi, lit) then Some(hi)
    else if hi == from then None
    else LastLiteral(s, lit, from, hi - 1)
  }

  /** The parse of pat at p, scanning for the last closing fence. */
  function ScanAt(pat: Pattern, s: string, p: nat): Option<Parse> {
    var open := Opener(pat);
    if !(LineStart(s, p) && LiteralAt(s, p, open)) then None
    else match pat
      case Untyped(_) =>
        var q := LastLiteral(s, "\n```", p + |open| + 1, |s|);
        if q.None? then None else Some(UntypedParse(q.value))
      case Typed(_) =>
        var t0 := p + |open|;
        var l := LastLiteral(s, "```", t0, |s|);
        if l.None? then None
        else
          Some(TypedScan(s, FirstNewline(s, t0), l.value))
  }

  lemma FenceIsNotNewline(s: string, k: nat)
    requires LiteralAt(s, k, "```")
    ensures k < |s| && s[k] == '`'
  {
    assert s[k..k + 3][0] == s[k];
  }

  /** ScanAt finds exactly the parse RE2 reports, and None when there is none. */
  lemma ScanAtIsLeftmostFirst(pat: Pattern, s: string, p: nat)
    ensures ScanAt(pat, s, p).Some? ==> LeftmostFirstAt(pat, s, p, ScanAt(pat, s, p).value)
    ensures ScanAt(pat, s, p).None? ==> NoMatchAt(pat, s, p)
  {
    if LineStart(s, p) && LiteralAt(s, p, Opener(pat)) {
      if pat.Untyped? {
        ScanAtUntyped(pat, s, p);
      } else {
        ScanAtTyped(pat, s, p);
      }
    }
  }

  /** The untyped case: the greedy note runs to the last "\n```". */
  lemma ScanAtUntyped(pat: Pattern, s: string, p: nat)
    requires pat.Untyped? && LineStart(s, p) && LiteralAt(s, p, Opener(pat))
    ensures ScanAt(pat, s, p).Some? ==> LeftmostFirstAt(pat, s, p, ScanAt(pat, s, p).value)
    ensures ScanAt(pat, s, p).None? ==> NoMatchAt(pat, s, p)
  {
    var q := LastLiteral(s, "\n```", p + |Opener(pat)| + 1, |s|);
    forall y | Valid(pat, s, p, y) ensures q.Some? && y.noteEnd <= q.value {
      assert y.noteEnd <= |s|;
    }
  }

  /** The typed case: the note runs to the last "```", the type to the first line break. */
  lemma ScanAtTyped(pat: Pattern, s: string, p: nat)
    requires pat.Typed? && LineStart(s, p) && LiteralAt(s, p, Opener(pat))
    ensures ScanAt(pat, s, p).Some? ==> LeftmostFirstAt(pat, s, p, ScanAt(pat, s, p).value)
    ensures ScanAt(pat, s, p).None? ==> NoMatchAt(pat, s, p)
  {
    var t0 := p + |Opener(pat)|;
    var l := LastLiteral(s, "```", t0, |s|);
    forall y | Valid(pat, s, p, y) ensures l.Some? && y.typeEnd <= FenceStart(y) <= l.value {
      assert FenceStart(y) <= |s|;
    }
    if l.Some? {
      var e := FirstNewline(s, t0);
      FenceIsNotNewline(s, l.value);
      var x := ScanAt(pat, s, p).value;
      TypedScanValid(s, t0, e, l.value, x);
      forall y | Valid(pat, s, p, y) ensures Prefers(x, y) {
        TypedScanPrefers(s, t0, e, l.value, x, y);
      }
    }
  }

  /** The parse the typed scan picks, from the first line break e and the last fence L. */
  function TypedScan(s: string, e: nat, L: nat): Parse {
    if e < |s| && L > e then TypedParse(e, true, L, false) else TypedParse(L, false, L, false)
  }

  /** The fact FirstNewline establishes about e, as a precondition. */
  ghost predicate FirstBreak(s: string, t0: nat, e: nat) {
    t0 <= e <= |s| && (forall k :: t0 <= k < e ==> s[k] != '\n') && (e < |s| ==> s[e] == '\n')
  }

  lemma TypedScanValid(s: string, t0: nat, e: nat, L: nat, x: Parse)
    requires FirstBreak(s, t0, e) && t0 <= L && LiteralAt(s, L, "```") && s[L] == '`'
    requires x == TypedScan(s, e, L)
    ensures x.TypedParse? && TypedValid(s, t0, x)
  {
  }

  /** No other way to match at the same start is preferred to the scanned parse. */
  lemma TypedScanPrefers(s: string, t0: nat, e: nat, L: nat, x: Parse, y: Parse)
    requires FirstBreak(s, t0, e) && L < |s| && s[L] == '`'
    requires x == TypedScan(s, e, L)
    requires y.TypedParse? && TypedValid(s, t0, y) && FenceStart(y) <= L
    ensures Prefers(x, y)
  {
    assert y.typeEnd <= e;
    assert y.nl2 ==> FenceStart(y) == y.noteEnd + 1;
  }

  /** After the match ScanAt finds, no line of s starts another match (greedy capture). */
  lemma NoMatchAfter(pat: Pattern, s: string, p: nat, p': nat)
    requires ScanAt(pat, s, p).Some?
    requires ParseEnd(ScanAt(pat, s, p).value) <= p'
    ensures NoMatchAt(pat, s, p')
  {
    ScanAtIsLeftmostFirst(pat, s, p);
    var open := Opener(pat);
    forall y | Valid(pat, s, p', y) ensures false {
    }
  }

  /** The leftmost start at or after pos where pat matches, with RE2's parse there. */
  function FindFrom(pat: Pattern, s: string, pos: nat): (r: Option<(nat, Parse)>)
    requires pos <= |s|
    ensures r.Some? ==> pos <= r.value.0 <= |s| && ScanAt(pat, s, r.value.0) == Some(r.value.1)
    ensures r.Some? ==> LeftmostFirstAt(pat, s, r.value.0, r.value.1)
    ensures r.Some? ==> forall p' :: pos <= p' < r.value.0 ==> NoMatchAt(pat, s, p')
    ensures r.None? ==> forall p' :: pos <= p' <= |s| ==> NoMatchAt(pat, s, p')
    decreases |s| - pos
  {
    ScanAtIsLeftmostFirst(pat, s, pos);
    match ScanAt(pat, s, pos)
    case Some(x) => Some((pos, x))
    case None =>
      if pos == |s| then None
      else
        var r := FindFrom(pat, s, pos + 1);
        NoMatchExtends(pat, s, pos, r);
        r
  }

  /** A start with no match extends the match-free stretch before a later result. */
  lemma NoMatchExtends(pat: Pattern, s: string, pos: nat, r: Option<(nat, Parse)>)
    requires pos < |s| && NoMatchAt(pat, s, pos)
    requires r.Some? ==> pos < r.value.0 && forall p' :: pos + 1 <= p' < r.value.0 ==> NoMatchAt(pat, s, p')
    requires r.None? ==> forall p' :: pos + 1 <= p' <= |s| ==> NoMatchAt(pat, s, p')
    ensures r.Some? ==> forall p' :: pos <= p' < r.value.0 ==> NoMatchAt(pat, s, p')
    ensures r.None? ==> forall p' :: pos <= p' <= |s| ==> NoMatchAt(pat, s, p')
  {
  }

  /** FindAllStringSubmatch(s, -1) from pos on: successive non-overlapping leftmost matches. */
  function FindAll(pat: Pattern, s: string, pos: nat): (ms: seq<Match>)
    requires pos <= |s|
    ensures forall m :: m in ms ==> |m.groups| == |SubexpNames(pat)|
    decreases |s| - pos
  {
    match FindFrom(pat, s, pos)
    case None => []
    case Some((p, x)) =>
      var m := MatchOf(pat, s, p, x);
      [m] + FindAll(pat, s, m.end)
  }

  function FindAllStringSubmatch(pat: Pattern, s: string): (ms: seq<Match>)
    ensures forall m :: m in ms ==> |m.groups| == |SubexpNames(pat)|
  {
    FindAll(pat, s, 0)
  }

  /**
   * Each pattern matches at most once in a text: a second block of the same
   * form is swallowed by the first match's greedy note capture.
   */
  lemma AtMostOneMatch(pat: Pattern, s: string)
    ensures |FindAllStringSubmatch(pat, s)| <= 1
  {
    var r := FindFrom(pat, s, 0);
    if r.Some? {
      var (p, x) := r.value;
      var m := MatchOf(pat, s, p, x);
      assert FindAll(pat, s, 0) == [m] + FindAll(pat, s, m.end);
      var r' := FindFrom(pat, s, m.end);
      if r'.Some? {
        NoMatchAfter(pat, s, p, r'.value.0);
        assert false;
      }
      assert FindAll(pat, s, m.end) == [];
    }
  }

  /** A text with no line that starts with the pattern's opener has no match. */
  lemma NoOpenerNoMatch(pat: Pattern, s: string)
    requires forall p :: 0 <= p <= |s| && LineStart(s, p) ==> !LiteralAt(s, p, Opener(pat))
    ensures FindAllStringSubmatch(pat, s) == []
  {
  }

  // ---- texts with known openers ----

  /** The characters every opener of textInBodyREs fixes: the fence, the marker's dash or 'n', the ':' or '\n'. */
  lemma OpenerChars(k: nat, s: string, p: nat)
    requires k < |TextInBodyREs| && LiteralAt(s, p, Opener(TextInBodyREs[k]))
    ensures s[p] == '`' && s[p + 3] == 'r'
    ensures s[p + 10] == (if k % 2 == 0 then '-' else 'n')
    ensures s[p + |Opener(TextInBodyREs[k])| - 1] == (if k < 2 then '\n' else ':')
  {
    var op := Opener(TextInBodyREs[k]);
    var n := |op|;
    assert s[p] == s[p..p + n][0] == op[0];
    assert s[p + 3] == s[p..p + n][3] == op[3];
    assert s[p + 10] == s[p..p + n][10] == op[10];
    assert s[p + n - 1] == s[p..p + n][n - 1] == op[n - 1];
  }

  /**
   * Every "```r" of s with room for an opener continues as
   * "```release-note:": only the typed release-note pattern can start there.
   */
  ghost predicate OnlyTypedReleaseNote(s: string) {
    forall p: nat :: p + 15 <= |s| && s[p] == '`' && s[p + 3] == 'r' ==>
      p + 16 <= |s| && s[p + 10] == '-' && s[p + 15] == ':'
  }

  /** In such a text the other three patterns find nothing. */
  lemma OnlyTypedReleaseNoteOpeners(s: string)
    requires OnlyTypedReleaseNote(s)
    ensures FindAllStringSubmatch(TextInBodyREs[0], s) == []
    ensures FindAllStringSubmatch(TextInBodyREs[1], s) == []
    ensures FindAllStringSubmatch(TextInBodyREs[3], s) == []
  {
    OtherPatternNoMatch(0, s);
    OtherPatternNoMatch(1, s);
    OtherPatternNoMatch(3, s);
  }

  lemma OtherPatternNoMatch(k: nat, s: string)
    requires k < 4 && k != 2 && OnlyTypedReleaseNote(s)
    ensures FindAllStringSubmatch(TextInBodyREs[k], s) == []
  {
    forall p: nat | LiteralAt(s, p, Opener(TextInBodyREs[k])) ensures false {
      OpenerChars(k, s, p);
    }
    NoOpenerNoMatch(TextInBodyREs[k], s);
  }

  /** e is where FirstNewline stops from t0. */
  lemma FirstNewlineIs(s: string, t0: nat, e: nat)
    requires FirstBreak(s, t0, e)
    ensures FirstNewline(s, t0) == e
  {
  }

  /** s is one typed block: the opener at 0, the first line break at e, the only closing "```" at L, ending s. */
  ghost predicate OneTypedBlock(pat: Pattern, s: string, e: nat, L: nat) {
    && pat.Typed? && LiteralAt(s, 0, Opener(pat))
    && FirstBreak(s, |Opener(pat)|, e) && e < L && L + 3 == |s| && LiteralAt(s, L, "```")
  }

  /**
   * A text that starts with a typed opener, has its first line break at e
   * and ends with its only "```" at L after e is one match: the type up to
   * e, the note from e + 1 up to the closing fence.
   */
  lemma OneTypedMatch(pat: Pattern, s: string, e: nat, L: nat)
    requires OneTypedBlock(pat, s, e, L)
    ensures FindAllStringSubmatch(pat, s) == [Match(0, |s|, [s[0..|s|], s[|Opener(pat)|..e], s[e + 1..L]])]
  {
    OneTypedFind(pat, s, e, L);
    var x := TypedParse(e, true, L, false);
    OnlyMatchAtStart(pat, s, x);
    TypedMatchOf(pat, s, x);
  }

  /** A match at 0 that runs to the end of s is the only one. */
  lemma OnlyMatchAtStart(pat: Pattern, s: string, x: Parse)
    requires FindFrom(pat, s, 0) == Some((0, x)) && FindFrom(pat, s, |s|) == None
    requires Valid(pat, s, 0, x) && ParseEnd(x) == |s|
    ensures FindAllStringSubmatch(pat, s) == [MatchOf(pat, s, 0, x)]
  {
    assert FindAll(pat, s, |s|) == [];
  }

  /** The groups of a typed match: the whole match, the type, the note. */
  lemma TypedMatchOf(pat: Pattern, s: string, x: Parse)
    requires pat.Typed? && Valid(pat, s, 0, x)
    ensures MatchOf(pat, s, 0, x) ==
      Match(0, ParseEnd(x), [s[0..ParseEnd(x)], s[|Opener(pat)|..x.typeEnd], s[NoteStart(x)..x.noteEnd]])
  {
  }

  /** The search finds the block at 0, with the type ending at e and the note at L, and nothing at the end. */
  lemma OneTypedFind(pat: Pattern, s: string, e: nat, L: nat)
    requires OneTypedBlock(pat, s, e, L)
    ensures FindFrom(pat, s, 0) == Some((0, TypedParse(e, true, L, false)))
    ensures FindFrom(pat, s, |s|) == None
    ensures var x := TypedParse(e, true, L, false);
      Valid(pat, s, 0, x) && ParseEnd(x) == |s| && NoteStart(x) == e + 1
  {
    var t0 := |Opener(pat)|;
    assert LastLiteral(s, "```", t0, |s|) == Some(L);
    FirstNewlineIs(s, t0, e);
    assert ScanAt(pat, s, 0) == Some(TypedParse(e, true, L, false));
    assert !LiteralAt(s, |s|, Opener(pat));
  }

  /** Every "```r" inside mid continues as "```release-note:" within mid. */
  ghost predicate MidOpenersTyped(mid: string) {
    forall q: nat :: q + 3 < |mid| && mid[q] == '`' && mid[q + 3] == 'r' ==>
      q + 15 < |mid| && mid[q + 10] == '-' && mid[q + 15] == ':'
  }

  /** A typed release-note block around mid: the opener, mid, the closing fence. */
  function TypedBlock(mid: string): string {
    "```release-note:" + mid + "```"
  }

  lemma TypedOpenerChars()
    ensures forall k :: 3 <= k < 16 ==> "```release-note:"[k] != '`'
    ensures "```release-note:"[4] != 'r' && "```release-note:"[5] != 'r'
    ensures "```release-note:"[10] == '-' && "```release-note:"[15] == ':'
  {
  }

  /** A block cut back into its opener, mid and closing fence. */
  lemma TypedBlockPieces(mid: string)
    ensures |TypedBlock(mid)| == |mid| + 19
    ensures TypedBlock(mid)[..16] == "```release-note:" && TypedBlock(mid)[16..16 + |mid|] == mid
    ensures TypedBlock(mid)[16 + |mid|..] == "```"
  {
    ConcatPieces("```release-note:", mid, "```");
  }

  /** Where the characters of a block come from. */
  lemma TypedBlockChars(mid: string)
    ensures |TypedBlock(mid)| == |mid| + 19
    ensures forall k :: 0 <= k < 16 ==> TypedBlock(mid)[k] == "```release-note:"[k]
    ensures forall k :: 16 <= k < 16 + |mid| ==> TypedBlock(mid)[k] == mid[k - 16]
    ensures forall k :: 16 + |mid| <= k < |mid| + 19 ==> TypedBlock(mid)[k] == '`'
  {
    var s := TypedBlock(mid);
    TypedBlockPieces(mid);
    forall k | 0 <= k < 16 ensures s[k] == "```release-note:"[k] {
      assert s[..16][k] == s[k];
    }
    forall k | 16 <= k < 16 + |mid| ensures s[k] == mid[k - 16] {
      assert s[16..16 + |mid|][k - 16] == s[k];
    }
    forall k | 16 + |mid| <= k < |mid| + 19 ensures s[k] == '`' {
      assert s[16 + |mid|..][k - 16 - |mid|] == s[k];
    }
  }

  /** The block's only openers are those of the typed release-note pattern. */
  lemma TypedBlockOpeners(mid: string)
    requires MidOpenersTyped(mid)
    ensures OnlyTypedReleaseNote(TypedBlock(mid))
  {
    var s := TypedBlock(mid);
    TypedBlockChars(mid);
    TypedOpenerChars();
    forall p: nat | p + 15 <= |s| && s[p] == '`' && s[p + 3] == 'r'
      ensures p + 16 <= |s| && s[p + 10] == '-' && s[p + 15] == ':'
    {
      if p < 16 {
        assert p < 3 && p + 3 != 4 && p + 3 != 5;
      } else {
        assert p + 3 < 16 + |mid|;
        assert mid[p - 16] == '`' && mid[p - 13] == 'r';
      }
    }
  }

  /**
   * With its first '\n' at e, the block is one typed block whose type is
   * mid[..e] and whose note is the rest of mid.
   */
  lemma TypedBlockIsOne(mid: string, e: nat)
    requires e < |mid| && mid[e] == '\n' && forall k :: 0 <= k < e ==> mid[k] != '\n'
    ensures OneTypedBlock(TextInBodyREs[2], TypedBlock(mid), 16 + e, 16 + |mid|)
    ensures TypedBlock(mid)[16..16 + e] == mid[..e] && TypedBlock(mid)[17 + e..16 + |mid|] == mid[e + 1..]
  {
    TypedBlockPieces(mid);
    CutBlockIsOne(TypedBlock(mid), mid, e);
  }

  /** The same for any s that cuts into the opener, mid and a closing fence. */
  lemma CutBlockIsOne(s: string, mid: string, e: nat)
    requires |s| == |mid| + 19 && s[..16] == "```release-note:" && s[16..16 + |mid|] == mid && s[16 + |mid|..] == "```"
    requires e < |mid| && mid[e] == '\n' && forall k :: 0 <= k < e ==> mid[k] != '\n'
    ensures OneTypedBlock(TextInBodyREs[2], s, 16 + e, 16 + |mid|)
    ensures s[16..16 + e] == mid[..e] && s[17 + e..16 + |mid|] == mid[e + 1..]
  {
    CutBlockEnds(s, |mid|);
    CutBlockBreak(s, mid, e);
    CutBlockSlices(s, mid, e);
  }

  lemma CutBlockEnds(s: string, n: nat)
    requires |s| == n + 19 && s[..16] == "```release-note:" && s[16 + n..] == "```"
    ensures Opener(TextInBodyREs[2]) == "```release-note:"
    ensures LiteralAt(s, 0, "```release-note:") && LiteralAt(s, 16 + n, "```")
  {
    assert s[0..16] == s[..16];
    assert s[16 + n..16 + n + 3] == s[16 + n..];
  }

  lemma CutBlockBreak(s: string, mid: string, e: nat)
    requires |s| == |mid| + 19 && s[16..16 + |mid|] == mid
    requires e < |mid| && mid[e] == '\n' && forall k :: 0 <= k < e ==> mid[k] != '\n'
    ensures FirstBreak(s, 16, 16 + e)
  {
    forall k | 16 <= k <= 16 + e ensures s[k] == mid[k - 16] {
      assert s[16..16 + |mid|][k - 16] == s[k];
    }
  }

  lemma CutBlockSlices(s: string, mid: string, e: nat)
    requires |s| == |mid| + 19 && s[16..16 + |mid|] == mid && e < |mid|
    ensures s[16..16 + e] == mid[..e] && s[17 + e..16 + |mid|] == mid[e + 1..]
  {
    assert s[16..16 + e] == s[16..16 + |mid|][..e];
    assert s[17 + e..16 + |mid|] == s[16..16 + |mid|][e + 1..];
  }
}

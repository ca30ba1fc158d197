/**
 * Release-note extraction (note.go): NotesFromEntry runs the four patterns
 * of NotePatterns over an entry's body, keeps every match whose trimmed
 * type or note is non-empty, stamps the entry's Issue on it and sorts the
 * result with the SortNotes comparator on (Type, Issue, Body).
 */
module Notes {
  import opened Strings
  import opened Sorting
  import opened NotePatterns
  import opened Wrappers
  import Entries

  datatype Note = Note(Type: string, Body: string, Issue: string)

  /**
   * The comparator SortNotes(res) returns, applied to res[i] and res[j]:
   * chained comparisons on Type, then Issue, then Body.
   */
  predicate SortNotes(x: Note, y: Note) {
    if Less(x.Type, y.Type) then true
    else if Less(y.Type, x.Type) then false
    else if Less(x.Issue, y.Issue) then true
    else if Less(y.Issue, x.Issue) then false
    else if Less(x.Body, y.Body) then true
    else if Less(y.Body, x.Body) then false
    else false
  }

  /** SortNotes is the lexicographic order on (Type, Issue, Body). */
  lemma SortNotesIsLexicographic(x: Note, y: Note)
    ensures SortNotes(x, y) <==>
      || Less(x.Type, y.Type)
      || (x.Type == y.Type && Less(x.Issue, y.Issue))
      || (x.Type == y.Type && x.Issue == y.Issue && Less(x.Body, y.Body))
  {
    LessTrichotomous(x.Type, y.Type);
    LessTrichotomous(x.Issue, y.Issue);
    LessAsymmetric(x.Type, y.Type);
    LessAsymmetric(x.Issue, y.Issue);
    LessIrreflexive(x.Type);
    LessIrreflexive(x.Issue);
  }

  lemma SortNotesTransitive(x: Note, y: Note, z: Note)
    requires SortNotes(x, y) && SortNotes(y, z)
    ensures SortNotes(x, z)
  {
    SortNotesIsLexicographic(x, y);
    SortNotesIsLexicographic(y, z);
    SortNotesIsLexicographic(x, z);
    if Less(x.Type, y.Type) && Less(y.Type, z.Type) { LessTransitive(x.Type, y.Type, z.Type); }
    if Less(x.Issue, y.Issue) && Less(y.Issue, z.Issue) { LessTransitive(x.Issue, y.Issue, z.Issue); }
    if Less(x.Body, y.Body) && Less(y.Body, z.Body) { LessTransitive(x.Body, y.Body, z.Body); }
  }

  lemma SortNotesConnected(x: Note, y: Note)
    ensures x == y || SortNotes(x, y) || SortNotes(y, x)
  {
    SortNotesIsLexicographic(x, y);
    SortNotesIsLexicographic(y, x);
    LessTrichotomous(x.Type, y.Type);
    LessTrichotomous(x.Issue, y.Issue);
    LessTrichotomous(x.Body, y.Body);
  }

  /**
   * SortNotes is a strict total order on notes: never true of a note and
   * itself, never true in both directions, transitive, and true in one
   * direction for any two different notes.
   */
  lemma SortNotesStrictTotalOrder()
    ensures StrictTotalOrder(SortNotes)
    ensures forall x, y :: SortNotes(x, y) ==> !SortNotes(y, x)
  {
    forall x: Note ensures !SortNotes(x, x) {
      LessIrreflexive(x.Type);
      LessIrreflexive(x.Issue);
      LessIrreflexive(x.Body);
    }
    forall x, y, z | SortNotes(x, y) && SortNotes(y, z) ensures SortNotes(x, z) {
      SortNotesTransitive(x, y, z);
    }
    forall x, y | x != y ensures SortNotes(x, y) || SortNotes(y, x) {
      SortNotesConnected(x, y);
    }
    forall x, y | SortNotes(x, y) ensures !SortNotes(y, x) {
      if SortNotes(y, x) { SortNotesTransitive(x, y, x); }
    }
    forall x, y, z | !SortNotes(x, y) && !SortNotes(y, z) ensures !SortNotes(x, z) {
      SortNotesConnected(x, y);
      SortNotesConnected(y, z);
      if SortNotes(x, z) {
        if SortNotes(z, y) { SortNotesTransitive(x, z, y); }
        if SortNotes(y, x) { SortNotesTransitive(z, y, x); SortNotesTransitive(x, z, x); }
      }
    }
  }

  // ---- reading the named groups of one match ----

  /** The group called name among the first n groups (the last such), or "". */
  function CaptureUpTo(names: seq<string>, groups: seq<string>, name: string, n: nat): string
    requires n <= |names| == |groups|
  {
    if n == 0 then ""
    else if names[n - 1] == name then groups[n - 1]
    else CaptureUpTo(names, groups, name, n - 1)
  }

  function Capture(names: seq<string>, groups: seq<string>, name: string): string
    requires |names| == |groups|
  {
    CaptureUpTo(names, groups, name, |names|)
  }

  lemma {:induction false} CaptureFound(names: seq<string>, groups: seq<string>, name: string, n: nat)
    requires n <= |names| == |groups|
    requires CaptureUpTo(names, groups, name, n) != ""
    ensures name in names[..n]
  {
    if names[n - 1] != name {
      CaptureFound(names, groups, name, n - 1);
    }
  }

  lemma {:induction false} CaptureStable(names: seq<string>, groups: seq<string>, name: string, n: nat, m: nat)
    requires n <= m <= |names| == |groups|
    requires name !in names[n..m]
    ensures CaptureUpTo(names, groups, name, m) == CaptureUpTo(names, groups, name, n)
    decreases m
  {
    if n < m {
      assert names[m - 1] == names[n..m][m - 1 - n];
      assert names[n..m - 1] <= names[n..m];
      CaptureStable(names, groups, name, n, m - 1);
    }
  }

  /** The note a match yields: trimmed captures, dropped when both are empty. */
  function NoteOf(pat: Pattern, m: Match, issue: string): Option<Note>
    requires |m.groups| == |SubexpNames(pat)|
  {
    var typ := TrimSpace(Capture(SubexpNames(pat), m.groups, "type"));
    var note := TrimSpace(Capture(SubexpNames(pat), m.groups, "note"));
    if note == "" && typ == "" then None else Some(Note(typ, note, issue))
  }

  /** What every returned note satisfies. */
  ghost predicate WellFormed(n: Note, issue: string) {
    && n.Issue == issue
    && (n.Type != "" || n.Body != "")
    && NoOuterSpace(n.Type)
    && NoOuterSpace(n.Body)
  }

  /** The notes the matches ms yield, in order. */
  function MatchNotes(pat: Pattern, ms: seq<Match>, issue: string): (r: seq<Note>)
    requires forall m :: m in ms ==> |m.groups| == |SubexpNames(pat)|
    ensures |r| <= |ms|
    ensures forall n :: n in r ==> WellFormed(n, issue)
  {
    if ms == [] then []
    else
      var last := NoteOf(pat, ms[|ms| - 1], issue);
      MatchNotes(pat, ms[..|ms| - 1], issue) + (if last.Some? then [last.value] else [])
  }

  /** The notes one pattern yields on a body. */
  function PatternNotes(pat: Pattern, body: string, issue: string): seq<Note> {
    MatchNotes(pat, FindAllStringSubmatch(pat, body), issue)
  }

  /** The notes of the first k patterns of textInBodyREs, before sorting. */
  function CollectedUpTo(entry: Entries.Entry, k: nat): seq<Note>
    requires k <= |TextInBodyREs|
  {
    if k == 0 then []
    else CollectedUpTo(entry, k - 1) + PatternNotes(TextInBodyREs[k - 1], entry.Body, entry.Issue)
  }

  /** Every note of every pattern, in the order NotesFromEntry appends them. */
  function Collected(entry: Entries.Entry): seq<Note> {
    CollectedUpTo(entry, |TextInBodyREs|)
  }

  lemma {:induction false} CollectedUpToWellFormed(entry: Entries.Entry, k: nat)
    requires k <= |TextInBodyREs|
    ensures forall n :: n in CollectedUpTo(entry, k) ==> WellFormed(n, entry.Issue)
    ensures |CollectedUpTo(entry, k)| <= k
  {
    if k > 0 {
      CollectedUpToWellFormed(entry, k - 1);
      AtMostOneMatch(TextInBodyREs[k - 1], entry.Body);
    }
  }

  /**
   * Every collected note carries the entry's Issue, has a non-empty Type or
   * Body, has no surrounding white space, and there are at most four of
   * them (one per pattern).
   */
  lemma CollectedWellFormed(entry: Entries.Entry)
    ensures forall n :: n in Collected(entry) ==> WellFormed(n, entry.Issue)
    ensures |Collected(entry)| <= |TextInBodyREs|
  {
    CollectedUpToWellFormed(entry, |TextInBodyREs|);
  }

  lemma UntypedNoteOfHasNoType(marker: string, m: Match, issue: string)
    requires |m.groups| == |SubexpNames(Untyped(marker))|
    ensures NoteOf(Untyped(marker), m, issue).Some? ==> NoteOf(Untyped(marker), m, issue).value.Type == ""
  {
    var names := SubexpNames(Untyped(marker));
    assert CaptureUpTo(names, m.groups, "type", 2) == CaptureUpTo(names, m.groups, "type", 1) == "";
    assert TrimSpace("") == "";
  }

  /** The untyped patterns declare no type group, so their notes have an empty Type. */
  lemma {:induction false} UntypedNotesHaveNoType(marker: string, ms: seq<Match>, issue: string)
    requires forall m :: m in ms ==> |m.groups| == |SubexpNames(Untyped(marker))|
    ensures forall n :: n in MatchNotes(Untyped(marker), ms, issue) ==> n.Type == ""
  {
    if ms != [] {
      UntypedNotesHaveNoType(marker, ms[..|ms| - 1], issue);
      UntypedNoteOfHasNoType(marker, ms[|ms| - 1], issue);
    }
  }

  lemma NoMarkerNoPatternNotes(pat: Pattern, s: string, issue: string, lit: string)
    requires lit == "```" + pat.marker
    requires forall p :: 0 <= p <= |s| && LineStart(s, p) ==> !LiteralAt(s, p, lit)
    ensures PatternNotes(pat, s, issue) == []
  {
    var rest := if pat.Untyped? then "\n" else ":";
    assert Opener(pat) == lit + rest;
    forall p | 0 <= p <= |s| && LineStart(s, p) ensures !LiteralAt(s, p, Opener(pat)) {
      LiteralPrefix(s, p, lit, rest);
    }
    NoOpenerNoMatch(pat, s);
  }

  lemma {:induction false} CollectedUpToEmpty(entry: Entries.Entry, k: nat)
    requires k <= |TextInBodyREs|
    requires forall j :: 0 <= j < k ==> PatternNotes(TextInBodyREs[j], entry.Body, entry.Issue) == []
    ensures CollectedUpTo(entry, k) == []
  {
    if k > 0 {
      CollectedUpToEmpty(entry, k - 1);
    }
  }

  /** A body in which no line starts with "```release-note" or "```releasenote" yields no note. */
  lemma NoMarkerNoNotes(entry: Entries.Entry)
    requires forall p :: 0 <= p <= |entry.Body| && LineStart(entry.Body, p) ==>
      !LiteralAt(entry.Body, p, "```release-note") && !LiteralAt(entry.Body, p, "```releasenote")
    ensures Collected(entry) == []
  {
    var s, issue := entry.Body, entry.Issue;
    forall k | 0 <= k < |TextInBodyREs| ensures PatternNotes(TextInBodyREs[k], s, issue) == [] {
      var lit := "```" + TextInBodyREs[k].marker;
      assert lit == "```release-note" || lit == "```releasenote";
      NoMarkerNoPatternNotes(TextInBodyREs[k], s, issue, lit);
    }
    CollectedUpToEmpty(entry, |TextInBodyREs|);
  }

  /**
   * The SubexpNames loop of NotesFromEntry: walks the group names, picking
   * up the "note" and "type" groups, and stops early once both are non-empty.
   */
  method NamedGroups(re: Pattern, m: Match) returns (note: string, typ: string)
    requires |m.groups| == |SubexpNames(re)|
    ensures note == Capture(SubexpNames(re), m.groups, "note")
    ensures typ == Capture(SubexpNames(re), m.groups, "type")
  {
    var names := SubexpNames(re);
    note, typ := "", "";
    var i := 0;
    while i < |names|
      invariant 0 <= i <= |names|
      invariant note == CaptureUpTo(names, m.groups, "note", i)
      invariant typ == CaptureUpTo(names, m.groups, "type", i)
    {
      if names[i] == "note" {
        note := m.groups[i];
      } else if names[i] == "type" {
        typ := m.groups[i];
      }
      if note != "" && typ != "" {
        CaptureFound(names, m.groups, "note", i + 1);
        CaptureFound(names, m.groups, "type", i + 1);
        CaptureStable(names, m.groups, "note", i + 1, |names|);
        CaptureStable(names, m.groups, "type", i + 1, |names|);
        return;
      }
      i := i + 1;
    }
  }

  lemma MatchNotesStep(pat: Pattern, ms: seq<Match>, i: nat, issue: string)
    requires i < |ms|
    requires forall m :: m in ms ==> |m.groups| == |SubexpNames(pat)|
    ensures var last := NoteOf(pat, ms[i], issue);
      MatchNotes(pat, ms[..i + 1], issue) == MatchNotes(pat, ms[..i], issue) + (if last.Some? then [last.value] else [])
  {
    assert ms[..i + 1][..i] == ms[..i];
  }

  /**
   * The loop over the matches of one pattern: read the named groups of each
   * match, trim them, skip the match if both are empty, and append a note
   * with the entry's Issue.
   */
  method NotesOfMatches(re: Pattern, matches: seq<Match>, issue: string) returns (notes: seq<Note>)
    requires forall m :: m in matches ==> |m.groups| == |SubexpNames(re)|
    ensures notes == MatchNotes(re, matches, issue)
  {
    notes := [];
    for mi := 0 to |matches|
      invariant notes == MatchNotes(re, matches[..mi], issue)
    {
      var m := matches[mi];
      var note, typ := NamedGroups(re, m);
      note := TrimSpace(note);
      typ := TrimSpace(typ);
      TrimmedNoteStep(re, matches, mi, issue, note, typ);
      if note == "" && typ == "" {
        continue;
      }
      notes := notes + [Note(typ, note, issue)];
    }
    assert matches[..|matches|] == matches;
  }

  /** One more match appends its trimmed note, unless both trimmed captures are empty. */
  lemma TrimmedNoteStep(re: Pattern, ms: seq<Match>, i: nat, issue: string, note: string, typ: string)
    requires i < |ms|
    requires forall m :: m in ms ==> |m.groups| == |SubexpNames(re)|
    requires note == TrimSpace(Capture(SubexpNames(re), ms[i].groups, "note"))
    requires typ == TrimSpace(Capture(SubexpNames(re), ms[i].groups, "type"))
    ensures MatchNotes(re, ms[..i + 1], issue) ==
      MatchNotes(re, ms[..i], issue) + (if note == "" && typ == "" then [] else [Note(typ, note, issue)])
  {
    MatchNotesStep(re, ms, i, issue);
  }

  /** The loop over textInBodyREs: the notes of every pattern, in pattern order. */
  method CollectNotes(entry: Entries.Entry) returns (acc: seq<Note>)
    ensures acc == Collected(entry)
  {
    acc := [];
    for k := 0 to |TextInBodyREs|
      invariant acc == CollectedUpTo(entry, k)
    {
      var re := TextInBodyREs[k];
      var matches := FindAllStringSubmatch(re, entry.Body);
      CollectStep(entry, k, matches);
      if |matches| == 0 {
        continue;
      }
      var notes := NotesOfMatches(re, matches, entry.Issue);
      acc := acc + notes;
    }
  }

  /** The notes of one more pattern are those of its matches. */
  lemma CollectStep(entry: Entries.Entry, k: nat, matches: seq<Match>)
    requires k < |TextInBodyREs|
    requires matches == FindAllStringSubmatch(TextInBodyREs[k], entry.Body)
    ensures CollectedUpTo(entry, k + 1) == CollectedUpTo(entry, k) + MatchNotes(TextInBodyREs[k], matches, entry.Issue)
    ensures matches == [] ==> CollectedUpTo(entry, k + 1) == CollectedUpTo(entry, k)
  {
  }

  /**
   * NotesFromEntry: collect the notes of every pattern in order, then sort
   * them in place.
   */
  method NotesFromEntry(entry: Entries.Entry) returns (res: seq<Note>)
    ensures multiset(res) == multiset(Collected(entry))
    ensures SortedBy(res, SortNotes)
    ensures forall n :: n in res ==> WellFormed(n, entry.Issue)
  {
    var acc := CollectNotes(entry);
    res := SortedNotes(acc);
    CollectedWellFormed(entry);
    assert forall n :: n in res ==> n in multiset(acc);
  }

  /** sort.Slice(res, SortNotes(res)) on a copy of the collected notes. */
  method SortedNotes(notes: seq<Note>) returns (res: seq<Note>)
    ensures multiset(res) == multiset(notes)
    ensures SortedBy(res, SortNotes)
  {
    var a := new Note[|notes|](i requires 0 <= i < |notes| => notes[i]);
    assert a[..] == notes;
    SortNotesStrictTotalOrder();
    SortSlice(a, SortNotes);
    res := a[..];
  }

  /** The sorted result is unique, so NotesFromEntry is deterministic. */
  lemma NotesFromEntryDeterministic(entry: Entries.Entry, r1: seq<Note>, r2: seq<Note>)
    requires multiset(r1) == multiset(Collected(entry)) && SortedBy(r1, SortNotes)
    requires multiset(r2) == multiset(Collected(entry)) && SortedBy(r2, SortNotes)
    ensures r1 == r2
  {
    SortNotesStrictTotalOrder();
    SortedUnique(r1, r2, SortNotes);
  }

  // ---- examples ----

  /** When only the typed release-note pattern yields notes, they are all that is collected. */
  lemma CollectedOnlyThird(entry: Entries.Entry)
    requires PatternNotes(TextInBodyREs[0], entry.Body, entry.Issue) == []
    requires PatternNotes(TextInBodyREs[1], entry.Body, entry.Issue) == []
    requires PatternNotes(TextInBodyREs[3], entry.Body, entry.Issue) == []
    ensures Collected(entry) == PatternNotes(TextInBodyREs[2], entry.Body, entry.Issue)
  {
    var body, issue := entry.Body, entry.Issue;
    assert CollectedUpTo(entry, 1) == [] + PatternNotes(TextInBodyREs[0], body, issue);
    assert CollectedUpTo(entry, 2) == CollectedUpTo(entry, 1) + PatternNotes(TextInBodyREs[1], body, issue);
    assert CollectedUpTo(entry, 3) == CollectedUpTo(entry, 2) + PatternNotes(TextInBodyREs[2], body, issue);
    assert CollectedUpTo(entry, 4) == CollectedUpTo(entry, 3) + PatternNotes(TextInBodyREs[3], body, issue);
  }

  /** A typed match's note: its trimmed type and note groups, unless both are empty. */
  lemma TypedNoteOf(pat: Pattern, m: Match, issue: string)
    requires pat.Typed? && |m.groups| == 3
    ensures var typ, note := TrimSpace(m.groups[1]), TrimSpace(m.groups[2]);
      MatchNotes(pat, [m], issue) == if typ == "" && note == "" then [] else [Note(typ, note, issue)]
  {
    var names := SubexpNames(pat);
    assert names == ["", "type", "note"];
    assert CaptureUpTo(names, m.groups, "type", 3) == CaptureUpTo(names, m.groups, "type", 2) == m.groups[1];
    assert CaptureUpTo(names, m.groups, "note", 3) == m.groups[2];
    assert [m][..0] == [];
  }

  /**
   * A body whose only opener is "```release-note:" at its start, with its
   * first line break at e and its only "```" closing it at L, gives one
   * note: the trimmed type up to e and the trimmed note after it.
   */
  lemma TypedReleaseNoteOnly(entry: Entries.Entry, e: nat, L: nat)
    requires OnlyTypedReleaseNote(entry.Body) && OneTypedBlock(TextInBodyREs[2], entry.Body, e, L)
    ensures var typ, note := TrimSpace(entry.Body[16..e]), TrimSpace(entry.Body[e + 1..L]);
      Collected(entry) == if typ == "" && note == "" then [] else [Note(typ, note, entry.Issue)]
  {
    var s := entry.Body;
    var pat := TextInBodyREs[2];
    assert |Opener(pat)| == 16;
    OnlyTypedReleaseNoteOpeners(s);
    CollectedOnlyThird(entry);
    OneTypedMatch(pat, s, e, L);
    TypedNoteOf(pat, Match(0, |s|, [s[0..|s|], s[16..e], s[e + 1..L]]), entry.Issue);
  }

  /**
   * A body that is one "```release-note:" block, holding a type line typ and
   * then text, with no other opener inside, gives one note: typ and text,
   * each trimmed, unless both trim to nothing.
   */
  lemma SingleTypedBlock(entry: Entries.Entry, typ: string, text: string)
    requires entry.Body == TypedBlock(typ + "\n" + text)
    requires forall k :: 0 <= k < |typ| ==> typ[k] != '\n'
    requires MidOpenersTyped(typ + "\n" + text)
    ensures var t, n := TrimSpace(typ), TrimSpace(text);
      Collected(entry) == if t == "" && n == "" then [] else [Note(t, n, entry.Issue)]
  {
    var s, e, L := entry.Body, 16 + |typ|, 17 + |typ| + |text|;
    TypedBlockOpeners(typ + "\n" + text);
    TypeLineBlock(typ, text);
    assert OnlyTypedReleaseNote(s) && OneTypedBlock(TextInBodyREs[2], s, e, L);
    TypedReleaseNoteOnly(entry, e, L);
  }

  /** The block around typ, a line break and text: its type ends at the break, its note is text. */
  lemma TypeLineBlock(typ: string, text: string)
    requires forall k :: 0 <= k < |typ| ==> typ[k] != '\n'
    ensures var s := TypedBlock(typ + "\n" + text);
      OneTypedBlock(TextInBodyREs[2], s, 16 + |typ|, 17 + |typ| + |text|)
      && s[16..16 + |typ|] == typ && s[17 + |typ|..17 + |typ| + |text|] == text
  {
    var mid := typ + "\n" + text;
    ConcatPieces(typ, "\n", text);
    assert mid[|typ|] == '\n';
    TypedBlockIsOne(mid, |typ|);
  }

  /** The note of the typed note example. */
  const BugNote: string := "fixed the thing"

  /** The text inside the typed note example's fences: type "bug", then the note on its own line. */
  const BugNoteText: string := "bug" + "\n" + (BugNote + "\n")

  lemma BugNoteTextOpeners()
    ensures MidOpenersTyped(BugNoteText)
  {
    forall q: nat | q < |BugNoteText| ensures BugNoteText[q] != '`' {
    }
  }

  /** A "```release-note:bug" block gives exactly the bug note with the block's text. */
  lemma BugNoteExample(issue: string, date: Entries.Time, hash: string)
    ensures Collected(Entries.Entry(issue, TypedBlock(BugNoteText), date, hash)) == [Note("bug", BugNote, issue)]
  {
    BugNoteTextOpeners();
    SingleTypedBlock(Entries.Entry(issue, TypedBlock(BugNoteText), date, hash), "bug", BugNote + "\n");
    BugNoteTrims();
  }

  lemma BugNoteTrims()
    ensures TrimSpace("bug") == "bug" && TrimSpace(BugNote + "\n") == BugNote
  {
    TrimSpaceKeeps("bug");
    TrimSpaceNewline(BugNote);
  }

  /** The note of the merged-blocks example: both blocks' text and the fences between them. */
  const MergedNote: string := "a\n```\n```release-note:bug\nb"

  /** The text between the outer fences of two "```release-note:bug" blocks in a row. */
  const MergedNoteText: string := "bug" + "\n" + (MergedNote + "\n")

  lemma MergedNoteTextOpeners()
    ensures MidOpenersTyped(MergedNoteText)
  {
    forall q: nat | q + 3 < |MergedNoteText| && MergedNoteText[q] == '`' && MergedNoteText[q + 3] == 'r'
      ensures q + 15 < |MergedNoteText| && MergedNoteText[q + 10] == '-' && MergedNoteText[q + 15] == ':'
    {
      assert q == 10;
    }
  }

  /**
   * Two typed bug blocks in one body are matched as one: the note group is
   * greedy, so the note runs from the first type line to the last fence.
   */
  lemma MergedBlocksExample(issue: string, date: Entries.Time, hash: string)
    ensures Collected(Entries.Entry(issue, TypedBlock(MergedNoteText), date, hash)) == [Note("bug", MergedNote, issue)]
  {
    MergedNoteTextOpeners();
    SingleTypedBlock(Entries.Entry(issue, TypedBlock(MergedNoteText), date, hash), "bug", MergedNote + "\n");
    MergedNoteTrims();
  }

  lemma MergedNoteTrims()
    ensures TrimSpace("bug") == "bug" && TrimSpace(MergedNote + "\n") == MergedNote
  {
    TrimSpaceKeeps("bug");
    TrimSpaceNewline(MergedNote);
  }
}

/**
 * The section parser of parser/parser.go: a SectionParser holds a
 * changelog document and finds the header and body of one version in it.
 *
 * The default format is matched by the scanner of SectionPattern. Any other
 * format is handed to an Engine, which stands for regexp.Compile applied to
 * fmt.Sprintf(format, quoted version) followed by FindSubmatchIndex on the
 * document; the model only relies on what RE2 guarantees about its answer
 * (the Search subset type).
 */
module SectionParsers {
  import opened Wrappers
  import opened Strings
  import opened ParserErrors
  import opened SectionPattern

  /** A half-open byte range [From, To) of the document. */
  datatype ByteRange = ByteRange(From: int, To: int)

  datatype SectionRange = Ranges(HeaderRange: ByteRange, BodyRange: ByteRange)

  datatype Section = Slices(Header: string, Body: string)

  /** Positions of a group's (from, to) pair in FindSubmatchIndex's result. */
  datatype Index = Index(from: nat, to: nat)

  /**
   * A user-supplied format, the quoted version and the document go in; the
   * compile error's text or what the compiled pattern reports comes out.
   */
  type Engine = (string, string, string) -> Result<Search, string>

  /** The compiled pattern regexp(v) returns. */
  datatype Regexp =
    | DefaultRegexp(lit: string)                   // the default pattern, matching lit literally
    | UserRegexp(format: string, quoted: string)   // a user format with the quoted version

  /** The first index at or after i whose name is name. */
  function FirstIndexFrom(names: seq<string>, name: string, i: nat): (r: Option<nat>)
    requires i <= |names|
    ensures r.Some? ==> i <= r.value < |names| && names[r.value] == name
    ensures r.Some? ==> forall k :: i <= k < r.value ==> names[k] != name
    ensures r.None? ==> forall k :: i <= k < |names| ==> names[k] != name
    decreases |names| - i
  {
    if i == |names| then None
    else if names[i] == name then Some(i)
    else FirstIndexFrom(names, name, i + 1)
  }

  /**
   * What findSubexpIndexes returns: the pair (2i, 2i + 1) for the first
   * group i called name, or the "subexpression not found" error.
   */
  function SubexpIndexes(names: seq<string>, name: string): (r: Result<Index, ParseError>)
    ensures r.Success? <==> name in names
    ensures r.Failure? ==> r.error == SubexpNotFound(name)
    ensures r.Success? ==>
      && r.value.from % 2 == 0 && r.value.to == r.value.from + 1 && r.value.to < 2 * |names|
      && names[r.value.from / 2] == name
      && name !in names[..r.value.from / 2]
  {
    var i := FirstIndexFrom(names, name, 0);
    if i.None? then Failure(SubexpNotFound(name)) else Success(Index(2 * i.value, 2 * i.value + 1))
  }

  /** findSubexpIndexes: walks the group names and returns at the first hit. */
  method FindSubexpIndexes(names: seq<string>, name: string) returns (r: Result<Index, ParseError>)
    ensures r == SubexpIndexes(names, name)
  {
    for i := 0 to |names|
      invariant FirstIndexFrom(names, name, 0) == FirstIndexFrom(names, name, i)
    {
      if names[i] == name {
        var from := i * 2;
        return Success(Index(from, from + 1));
      }
    }
    return Failure(SubexpNotFound(name));
  }

  class SectionParser {
    var RegexpFormat: string
    /** The document; it never changes after construction. */
    const content: string

    constructor (content: string)
      ensures this.content == content
      ensures RegexpFormat == DefaultSectionReFmt
    {
      this.content := content;
      RegexpFormat := DefaultSectionReFmt;
    }

    /** regexpFormat: an empty RegexpFormat falls back to the default. */
    function EffectiveFormat(): (f: string)
      reads this
      ensures f != ""
      ensures RegexpFormat != "" ==> f == RegexpFormat
      ensures RegexpFormat == "" ==> f == DefaultSectionReFmt
    {
      if RegexpFormat == "" then DefaultSectionReFmt else RegexpFormat
    }

    /**
     * regexp(v): the format with QuoteMeta(v) in place of %s. The default
     * pattern then matches v itself (UnquoteQuoteMeta).
     */
    function Regexp(v: string): (re: Regexp)
      reads this
      ensures EffectiveFormat() == DefaultSectionReFmt ==> re == DefaultRegexp(v)
      ensures EffectiveFormat() != DefaultSectionReFmt ==> re == UserRegexp(EffectiveFormat(), QuoteMeta(v))
    {
      var q := QuoteMeta(v);
      UnquoteQuoteMeta(v);
      if EffectiveFormat() == DefaultSectionReFmt then DefaultRegexp(Unquote(q))
      else UserRegexp(EffectiveFormat(), q)
    }

    /** Compiling re and running FindSubmatchIndex on the document. */
    function Run(re: Regexp, engine: Engine): Result<Search, ParseError>
      reads this
    {
      match re
      case DefaultRegexp(lit) => Success(DefaultSearch(content, lit))
      case UserRegexp(f, q) =>
        match engine(f, q, content)
        case Failure(msg) => Failure(CompileError(msg))
        case Success(x) => Success(x)
    }

    /**
     * SectionRange(v): compile, search, report not-found, then resolve the
     * "header" and "body" groups, in that order. A not-found error always
     * carries v.
     */
    function SectionRange(v: string, engine: Engine): (r: Result<SectionRange, ParseError>)
      reads this
      ensures r.Failure? && r.error.NotFound? ==> r.error == NotFound(VersionNotFoundErr(v))
    {
      var x :- Run(Regexp(v), engine);
      if x.loc.None? then Failure(NotFound(VersionNotFoundErr(v)))
      else
        var h :- SubexpIndexes(x.names, "header");
        var b :- SubexpIndexes(x.names, "body");
        var loc := x.loc.value;
        Success(Ranges(ByteRange(loc[h.from], loc[h.to]), ByteRange(loc[b.from], loc[b.to])))
    }

    /** r is a range content can be sliced at. */
    predicate InContent(r: ByteRange)
      reads this
    {
      0 <= r.From <= r.To <= |content|
    }

    /**
     * Section(v): the trimmed header and body slices. Slicing outside the
     * document, which Go turns into a panic, is the SliceOutOfRange error.
     */
    function Section(v: string, engine: Engine): (r: Result<Section, ParseError>)
      reads this
      ensures r.Success? ==> SectionRange(v, engine).Success?
      ensures r.Success? ==> NoOuterSpace(r.value.Header) && NoOuterSpace(r.value.Body)
      ensures r.Failure? && r.error != SliceOutOfRange ==> SectionRange(v, engine) == Failure(r.error)
    {
      var sr :- SectionRange(v, engine);
      var h, b := sr.HeaderRange, sr.BodyRange;
      if !(InContent(h) && InContent(b)) then Failure(SliceOutOfRange)
      else
        Success(Slices(TrimSpace(content[h.From..h.To]), TrimSpace(content[b.From..b.To])))
    }
  }

  /** NewSectionParser: read the whole document, or return the read error. */
  method NewSectionParser(read: Result<string, string>) returns (r: Result<SectionParser, ParseError>)
    ensures read.Failure? ==> r == Failure(ReadError(read.error))
    ensures read.Success? ==> r.Success? && fresh(r.value)
    ensures read.Success? ==> r.value.content == read.value && r.value.RegexpFormat == DefaultSectionReFmt
  {
    if read.Failure? {
      return Failure(ReadError(read.error));
    }
    var p := new SectionParser(read.value);
    return Success(p);
  }

  // ---- the order of the errors, for any format ----

  /** A compile error of the format is reported before anything else. */
  lemma CompileErrorFirst(p: SectionParser, v: string, engine: Engine)
    requires p.EffectiveFormat() != DefaultSectionReFmt
    requires engine(p.EffectiveFormat(), QuoteMeta(v), p.content).Failure?
    ensures p.SectionRange(v, engine) == Failure(CompileError(engine(p.EffectiveFormat(), QuoteMeta(v), p.content).error))
    ensures p.Section(v, engine) == p.SectionRange(v, engine).PropagateFailure()
  {
  }

  /**
   * When the pattern compiles but does not match, the error is not-found
   * for v, whatever groups the pattern has: a format without a header or
   * body group still reports not-found on a document it does not match.
   */
  lemma NotFoundBeforeGroups(p: SectionParser, v: string, engine: Engine)
    requires p.Run(p.Regexp(v), engine).Success? && p.Run(p.Regexp(v), engine).value.loc.None?
    ensures p.SectionRange(v, engine) == Failure(NotFound(VersionNotFoundErr(v)))
    ensures p.Section(v, engine) == Failure(NotFound(VersionNotFoundErr(v)))
    ensures VersionNotFoundErr(v).Is(p.Section(v, engine).error)
  {
  }

  /** On a match, a missing header group is reported before a missing body group. */
  lemma MissingGroupAfterMatch(p: SectionParser, v: string, engine: Engine)
    requires p.Run(p.Regexp(v), engine).Success? && p.Run(p.Regexp(v), engine).value.loc.Some?
    ensures var names := p.Run(p.Regexp(v), engine).value.names;
      && ("header" !in names ==> p.SectionRange(v, engine) == Failure(SubexpNotFound("header")))
      && ("header" in names && "body" !in names ==> p.SectionRange(v, engine) == Failure(SubexpNotFound("body")))
      && ("header" in names && "body" in names <==> p.SectionRange(v, engine).Success?)
  {
  }

  /**
   * i and j are the first groups called "header" and "body", and sr holds
   * their (from, to) pairs of loc.
   */
  ghost predicate FirstGroups(names: seq<string>, loc: seq<int>, sr: SectionRange, i: int, j: int) {
    && 0 <= i < |names| && 0 <= j < |names| && 2 * j + 1 < |loc| && 2 * i + 1 < |loc|
    && names[i] == "header" && "header" !in names[..i]
    && names[j] == "body" && "body" !in names[..j]
    && sr.HeaderRange == ByteRange(loc[2 * i], loc[2 * i + 1])
    && sr.BodyRange == ByteRange(loc[2 * j], loc[2 * j + 1])
  }

  /**
   * On success the ranges are the (from, to) pairs of the first group
   * called "header" and the first called "body".
   */
  lemma RangesOfFirstGroups(p: SectionParser, v: string, engine: Engine)
    requires p.SectionRange(v, engine).Success?
    ensures var x := p.Run(p.Regexp(v), engine);
      && x.Success? && x.value.loc.Some?
      && exists i, j :: FirstGroups(x.value.names, x.value.loc.value, p.SectionRange(v, engine).value, i, j)
  {
    var x := p.Run(p.Regexp(v), engine).value;
    var h := SubexpIndexes(x.names, "header").value;
    var b := SubexpIndexes(x.names, "body").value;
    var i, j := h.from / 2, b.from / 2;
    assert 2 * i == h.from && 2 * j == b.from;
    assert FirstGroups(x.names, x.loc.value, p.SectionRange(v, engine).value, i, j);
  }

  /** Section slices exactly the ranges SectionRange reports and trims them. */
  lemma SectionSlicesRanges(p: SectionParser, v: string, engine: Engine)
    requires p.SectionRange(v, engine).Success?
    ensures var sr := p.SectionRange(v, engine).value;
      && (p.Section(v, engine).Success? <==> p.InContent(sr.HeaderRange) && p.InContent(sr.BodyRange))
      && (p.Section(v, engine).Success? ==>
        var h, b := sr.HeaderRange, sr.BodyRange;
        p.Section(v, engine).value == Slices(TrimSpace(p.content[h.From..h.To]), TrimSpace(p.content[b.From..b.To])))
  {
  }

  // ---- the default format ----

  /** With the default format, the engine plays no part. */
  lemma DefaultIgnoresEngine(p: SectionParser, v: string, e1: Engine, e2: Engine)
    requires p.EffectiveFormat() == DefaultSectionReFmt
    ensures p.SectionRange(v, e1) == p.SectionRange(v, e2)
    ensures p.Section(v, e1) == p.Section(v, e2)
  {
  }

  /**
   * With the default format the only possible error is not-found, and it
   * happens exactly when the pattern matches nowhere in the document.
   */
  lemma DefaultFailsOnlyWhenAbsent(p: SectionParser, v: string, engine: Engine)
    requires p.EffectiveFormat() == DefaultSectionReFmt
    ensures p.SectionRange(v, engine).Failure? <==> DefaultNoMatch(p.content, v)
    ensures p.SectionRange(v, engine).Failure? ==> p.SectionRange(v, engine).error == NotFound(VersionNotFoundErr(v))
  {
    DefaultSearchIsLeftmostFirst(p.content, v);
    assert "header" in DefaultNames && "body" in DefaultNames;
  }

  /**
   * With the default format, a found section is the leftmost-first match:
   * the header range starts with "## " and v taken literally and holds no
   * other '\n' than those of v; one '\n' separates it from the body; the body is not empty and
   * ends at the first '\n' followed by "## " and a byte, or by nothing.
   */
  lemma DefaultRanges(p: SectionParser, v: string, engine: Engine)
    requires p.EffectiveFormat() == DefaultSectionReFmt
    requires p.SectionRange(v, engine).Success?
    ensures var h, b := p.SectionRange(v, engine).value.HeaderRange, p.SectionRange(v, engine).value.BodyRange;
      && 0 <= h.From && h.To < |p.content|
      && DefaultLeftmost(p.content, v, h.From, h.To, b.To)
      && LiteralAt(p.content, h.From, "## " + v)
      && (forall k :: h.From + 3 + |v| <= k < h.To ==> p.content[k] != '\n')
      && ('\n' !in v ==> forall k :: h.From <= k < h.To ==> p.content[k] != '\n')
      && p.content[h.To] == '\n' && b.From == h.To + 1
      && b.From < b.To && Terminator(p.content, b.To)
      && p.InContent(h) && p.InContent(b)
  {
    DefaultSectionRange(p, v, engine);
    DefaultSearchIsLeftmostFirst(p.content, v);
    var loc := DefaultSearch(p.content, v).loc.value;
    DefaultLeftmostFacts(p.content, v, loc[2], loc[3], loc[5]);
  }

  /** With the default format, SectionRange reports DefaultSearch's groups 1 and 2. */
  lemma DefaultSectionRange(p: SectionParser, v: string, engine: Engine)
    requires p.EffectiveFormat() == DefaultSectionReFmt
    ensures var loc := DefaultSearch(p.content, v).loc;
      p.SectionRange(v, engine) ==
        if loc.None? then Failure(NotFound(VersionNotFoundErr(v)))
        else Success(Ranges(ByteRange(loc.value[2], loc.value[3]), ByteRange(loc.value[4], loc.value[5])))
  {
    assert SubexpIndexes(DefaultNames, "header") == Success(Index(2, 3));
    assert SubexpIndexes(DefaultNames, "body") == Success(Index(4, 5));
  }

  /** What a leftmost-first parse (p, e, b) of the default pattern says about s. */
  lemma DefaultLeftmostFacts(s: string, v: string, p: nat, e: nat, b: nat)
    requires DefaultLeftmost(s, v, p, e, b)
    ensures e < |s| && LiteralAt(s, p, "## " + v)
    ensures forall k :: p + 3 + |v| <= k < e ==> s[k] != '\n'
    ensures '\n' !in v ==> forall k :: p <= k < e ==> s[k] != '\n'
    ensures s[e] == '\n' && e + 1 < b && Terminator(s, b)
  {
    if '\n' !in v {
      forall k | p <= k < p + 3 + |v| ensures s[k] != '\n' {
        assert s[k] == s[p..p + 3 + |v|][k - p] == ("## " + v)[k - p];
      }
    }
  }

  // ---- the cases of parser/parser_test.go ----

  /** "empty log": not found, carrying the version. */
  lemma SectionOfEmptyLog(p: SectionParser, engine: Engine)
    requires p.content == "" && p.RegexpFormat == DefaultSectionReFmt
    ensures p.Section("0.12.0", engine) == Failure(NotFound(VersionNotFoundErr("0.12.0")))
  {
    DefaultSearchEmpty("0.12.0");
  }

  lemma UnreleasedRanges(p: SectionParser, engine: Engine)
    requires p.content == UnreleasedDoc && p.RegexpFormat == DefaultSectionReFmt
    ensures p.SectionRange("0.12.0", engine) == Success(Ranges(ByteRange(0, 22), ByteRange(23, 34)))
  {
    DefaultSearchUnreleased();
    DefaultSectionRange(p, "0.12.0", engine);
  }

  /** "matching unreleased version": the header keeps its suffix, the body is trimmed. */
  lemma SectionOfUnreleased(p: SectionParser, engine: Engine)
    requires p.content == UnreleasedDoc && p.RegexpFormat == DefaultSectionReFmt
    ensures p.Section("0.12.0", engine) == Success(Slices("## 0.12.0 (Unreleased)", "something"))
  {
    UnreleasedRanges(p, engine);
    UnreleasedTrimmed();
    assert p.InContent(ByteRange(0, 22)) && p.InContent(ByteRange(23, 34));
  }

  lemma ReleasedTopRanges(p: SectionParser, engine: Engine)
    requires p.content == ReleasedTopDoc && p.RegexpFormat == DefaultSectionReFmt
    ensures p.SectionRange("0.12.0", engine) == Success(Ranges(ByteRange(0, 9), ByteRange(10, 37)))
  {
    DefaultSearchReleasedTop();
    DefaultSectionRange(p, "0.12.0", engine);
  }

  /** "matching released version - top": a body of two lines, up to the next header. */
  lemma SectionOfReleasedTop(p: SectionParser, engine: Engine)
    requires p.content == ReleasedTopDoc && p.RegexpFormat == DefaultSectionReFmt
    ensures p.Section("0.12.0", engine) == Success(Slices("## 0.12.0", "matching text\nwith newline"))
  {
    ReleasedTopRanges(p, engine);
    ReleasedTopTrimmed();
    assert p.InContent(ByteRange(0, 9)) && p.InContent(ByteRange(10, 37));
  }

  /** "version not found": other versions only. */
  lemma SectionOfOtherVersions(p: SectionParser, engine: Engine)
    requires p.content == OtherVersionsDoc && p.RegexpFormat == DefaultSectionReFmt
    ensures p.Section("0.12.0", engine) == Failure(NotFound(VersionNotFoundErr("0.12.0")))
  {
    DefaultSearchOtherVersions();
  }
}

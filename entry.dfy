/**
 * Entries and the entry diff of entry.go.
 *
 * The git repository is abstracted to what Diff observes of it: named
 * revisions resolving to commit hashes, the tree of each commit (directory
 * listings and file contents), the path-filtered history starting at each
 * commit, and a worktree whose checked-out commit Checkout changes.
 */
module Entries {
  import opened Wrappers
  import opened Strings
  import opened Sorting

  /** A commit time; the model only stores and copies it. */
  datatype Time = Time(unixNano: int)

  /** One changelog-entry file as seen at a revision. */
  datatype Entry = Entry(Issue: string, Body: string, Date: Time, Hash: string)

  type Hash = string

  /** filepath.Join(dir, name), kept as its two parts. */
  datatype Path = Path(dir: string, name: string)

  /** A file of a tree: its contents, or a file whose reading fails. */
  datatype File = Readable(content: string) | Unreadable

  /** The snapshot of one commit: names listed per directory, and the files. */
  datatype Tree = Tree(dirs: map<string, seq<string>>, files: map<Path, File>)

  /** A commit of a path-filtered log: its hash and its author time. */
  datatype Commit = Commit(Hash: Hash, When: Time)

  /**
   * What Diff reads from the repository: ResolveRevision's answers, the
   * tree of each commit, and for a commit and a path the log starting at
   * that commit filtered to the path, newest first.
   */
  datatype Store = Store(
    refs: map<string, Hash>,
    trees: map<Hash, Tree>,
    history: map<(Hash, Path), seq<Commit>>)

  /** The errors Diff returns, each naming what it was about. */
  datatype DiffError =
    | CloneError(msg: string)
    | ResolveError(ref: string)
    | CheckoutError(ref: string)
    | ReadDirError(dir: string)
    | OpenError(name: string)
    | ReadError(name: string)
    | LogError(path: Path)
    | NoCommit(path: Path)

  /** The names a listing holds. */
  function Names(listing: seq<string>): set<string> {
    set i | 0 <= i < |listing| :: listing[i]
  }

  // ---- the specification of Diff ----

  /**
   * The first part of Diff: the commit ref2 resolves to and the candidate
   * names, or the error that ends the call before any file is read. ref2 is
   * resolved first; "-" as ref1 is never resolved and subtracts nothing; a
   * failed checkout of ref1 leaves the worktree at ref2.
   */
  function Candidates(st: Store, ref1: string, ref2: string, dir: string): (r: Result<(Hash, set<string>), DiffError>)
    ensures r.Success? ==> ref2 in st.refs && r.value.0 == st.refs[ref2] && r.value.0 in st.trees
  {
    if ref2 !in st.refs then Failure(ResolveError(ref2))
    else
      var rev2 := st.refs[ref2];
      if ref1 != "-" && ref1 !in st.refs then Failure(ResolveError(ref1))
      else if rev2 !in st.trees then Failure(CheckoutError(ref2))
      else if dir !in st.trees[rev2].dirs then Failure(ReadDirError(dir))
      else
        var after := Names(st.trees[rev2].dirs[dir]);
        if ref1 == "-" then Success((rev2, after))
        else
          var rev1 := st.refs[ref1];
          var before := if rev1 in st.trees then st.trees[rev1] else st.trees[rev2];
          if dir !in before.dirs then Failure(ReadDirError(dir))
          else Success((rev2, after - Names(before.dirs[dir])))
  }

  /** The entry for one candidate, read at rev2, or the error that aborts Diff. */
  function EntryFor(st: Store, rev2: Hash, dir: string, name: string): (r: Result<Entry, DiffError>)
    requires rev2 in st.trees
    ensures r.Success? ==> r.value.Issue == name
  {
    var path := Path(dir, name);
    var tree := st.trees[rev2];
    if path !in tree.files then Failure(OpenError(name))
    else if tree.files[path].Unreadable? then Failure(ReadError(name))
    else if (rev2, path) !in st.history then Failure(LogError(path))
    else if st.history[(rev2, path)] == [] then Failure(NoCommit(path))
    else
      var last := st.history[(rev2, path)][0];
      Success(Entry(name, tree.files[path].content, last.When, last.Hash))
  }

  /** The Issues (file names) of a sequence of entries. */
  function Issues(es: seq<Entry>): set<string> {
    set e | e in es :: e.Issue
  }

  /** Every entry of es is what EntryFor reads for its Issue. */
  ghost predicate ReadAt(st: Store, rev2: Hash, dir: string, es: seq<Entry>)
    requires rev2 in st.trees
  {
    forall e :: e in es ==> EntryFor(st, rev2, dir, e.Issue) == Success(e)
  }

  /** Strictly ascending by Issue (so no Issue occurs twice). */
  ghost predicate Ascending(es: seq<Entry>) {
    forall i, j :: 0 <= i < j < |es| ==> Less(es[i].Issue, es[j].Issue)
  }

  /** es holds one entry per name, each as EntryFor reads it, strictly ascending by Issue. */
  ghost predicate EntriesFor(st: Store, rev2: Hash, dir: string, names: set<string>, es: seq<Entry>)
    requires rev2 in st.trees
  {
    ReadAt(st, rev2, dir, es) && Issues(es) == names && Ascending(es)
  }

  /**
   * What Diff returns: the error of the first part, else the entries of all
   * candidates when every one of them can be read, else the error of one
   * candidate that cannot (which one depends on map iteration order).
   */
  ghost predicate DiffResult(st: Store, ref1: string, ref2: string, dir: string, r: Result<seq<Entry>, DiffError>) {
    match Candidates(st, ref1, ref2, dir)
    case Failure(e) => r == Failure(e)
    case Success((rev2, names)) =>
      if forall n :: n in names ==> EntryFor(st, rev2, dir, n).Success? then
        r.Success? && EntriesFor(st, rev2, dir, names, r.value)
      else
        r.Failure? && exists n :: n in names && EntryFor(st, rev2, dir, n) == Failure(r.error)
  }

  // ---- the repository ----

  /** A cloned repository and its worktree. */
  class Repository {
    const refs: map<string, Hash>
    const trees: map<Hash, Tree>
    const history: map<(Hash, Path), seq<Commit>>
    /** The commit the worktree (and HEAD) is at. */
    var head: Hash

    ghost predicate Valid()
      reads this
    {
      head in trees
    }

    constructor (refs: map<string, Hash>, trees: map<Hash, Tree>, history: map<(Hash, Path), seq<Commit>>, head: Hash)
      requires head in trees
      ensures Valid()
      ensures this.refs == refs && this.trees == trees && this.history == history && this.head == head
    {
      this.refs, this.trees, this.history, this.head := refs, trees, history, head;
    }

    function Snapshot(): Store
      reads this
    {
      Store(refs, trees, history)
    }

    /** ResolveRevision: the hash a name resolves to. */
    function ResolveRevision(ref: string): (r: Result<Hash, DiffError>)
      ensures r.Success? <==> ref in refs
      ensures r.Success? ==> r.value == refs[ref]
      ensures r.Failure? ==> r.error == ResolveError(ref)
    {
      if ref in refs then Success(refs[ref]) else Failure(ResolveError(ref))
    }

    /**
     * Checkout with Force: the worktree moves to h when h has a tree, and
     * stays where it was when the checkout fails.
     */
    method Checkout(h: Hash) returns (ok: bool)
      requires Valid()
      modifies this
      ensures Valid()
      ensures ok <==> h in trees
      ensures ok ==> head == h
      ensures !ok ==> head == old(head)
    {
      ok := h in trees;
      if ok {
        head := h;
      }
    }

    /** ReadDir on the worktree: the names dir lists at the checked-out commit. */
    function ReadDir(dir: string): (r: Result<seq<string>, DiffError>)
      requires Valid()
      reads this
      ensures r.Success? <==> dir in trees[head].dirs
      ensures r.Success? ==> r.value == trees[head].dirs[dir]
      ensures r.Failure? ==> r.error == ReadDirError(dir)
    {
      if dir in trees[head].dirs then Success(trees[head].dirs[dir]) else Failure(ReadDirError(dir))
    }

    /** Open on the worktree. */
    function Open(path: Path): (r: Result<File, DiffError>)
      requires Valid()
      reads this
      ensures r.Success? <==> path in trees[head].files
      ensures r.Success? ==> r.value == trees[head].files[path]
      ensures r.Failure? ==> r.error == OpenError(path.name)
    {
      if path in trees[head].files then Success(trees[head].files[path]) else Failure(OpenError(path.name))
    }

    /** Log{FileName: path} from HEAD. */
    function Log(path: Path): (r: Result<seq<Commit>, DiffError>)
      reads this
      ensures r.Success? <==> (head, path) in history
      ensures r.Success? ==> r.value == history[(head, path)]
      ensures r.Failure? ==> r.error == LogError(path)
    {
      if (head, path) in history then Success(history[(head, path)]) else Failure(LogError(path))
    }
  }

  /** ioutil.ReadAll on an opened file. */
  function ReadAll(f: File, name: string): (r: Result<string, DiffError>)
    ensures r.Success? <==> f.Readable?
    ensures r.Success? ==> r.value == f.content
    ensures r.Failure? ==> r.error == ReadError(name)
  {
    if f.Readable? then Success(f.content) else Failure(ReadError(name))
  }

  /** log.Next(): the newest commit, or the end-of-log error. */
  function Next(log: seq<Commit>, path: Path): (r: Result<Commit, DiffError>)
    ensures r.Success? <==> log != []
    ensures r.Success? ==> r.value == log[0]
    ensures r.Failure? ==> r.error == NoCommit(path)
  {
    if log == [] then Failure(NoCommit(path)) else Success(log[0])
  }

  // ---- Diff ----

  /** The comparator of the sort.Slice call: entries[i].Issue < entries[j].Issue. */
  predicate IssueLess(x: Entry, y: Entry) {
    Less(x.Issue, y.Issue)
  }

  lemma IssueLessStrictWeakOrder()
    ensures StrictWeakOrder(IssueLess)
  {
    forall x: Entry ensures !IssueLess(x, x) {
      LessIrreflexive(x.Issue);
    }
    forall x: Entry, y: Entry, z: Entry | IssueLess(x, y) && IssueLess(y, z) ensures IssueLess(x, z) {
      LessTransitive(x.Issue, y.Issue, z.Issue);
    }
    forall x: Entry, y: Entry, z: Entry | !IssueLess(x, y) && !IssueLess(y, z) ensures !IssueLess(x, z) {
      LessTrichotomous(x.Issue, y.Issue);
      LessTrichotomous(y.Issue, z.Issue);
      if Less(x.Issue, z.Issue) {
        if Less(z.Issue, y.Issue) { LessTransitive(x.Issue, z.Issue, y.Issue); }
        if Less(y.Issue, x.Issue) { LessTransitive(z.Issue, y.Issue, x.Issue); LessTransitive(x.Issue, z.Issue, x.Issue); LessIrreflexive(x.Issue); }
        if y.Issue == x.Issue || y.Issue == z.Issue { LessIrreflexive(x.Issue); LessAsymmetric(x.Issue, z.Issue); }
      }
    }
  }

  /**
   * Sorted by IssueLess and with distinct Issues: strictly ascending.
   */
  lemma SortedDistinctAscending(es: seq<Entry>)
    requires SortedBy(es, IssueLess)
    requires forall i, j :: 0 <= i < j < |es| ==> es[i].Issue != es[j].Issue
    ensures forall i, j :: 0 <= i < j < |es| ==> Less(es[i].Issue, es[j].Issue)
  {
    forall i, j | 0 <= i < j < |es| ensures Less(es[i].Issue, es[j].Issue) {
      LessTrichotomous(es[i].Issue, es[j].Issue);
    }
  }

  /** sort.Slice(entries, by Issue) on a copy of the collected entries. */
  method SortedEntries(entries: seq<Entry>) returns (res: seq<Entry>)
    ensures multiset(res) == multiset(entries)
    ensures SortedBy(res, IssueLess)
  {
    var a := new Entry[|entries|](i requires 0 <= i < |entries| => entries[i]);
    assert a[..] == entries;
    IssueLessStrictWeakOrder();
    SortSlice(a, IssueLess);
    res := a[..];
  }

  /** The first loop of Diff: every listed name becomes a candidate. */
  method CollectNames(listing: seq<string>) returns (candidates: set<string>)
    ensures candidates == Names(listing)
  {
    candidates := {};
    for k := 0 to |listing|
      invariant candidates == Names(listing[..k])
    {
      assert listing[..k + 1] == listing[..k] + [listing[k]];
      candidates := candidates + {listing[k]};
    }
    assert listing[..|listing|] == listing;
  }

  /** The delete loop of Diff: every name listed at ref1 is dropped. */
  method DeleteNames(candidates: set<string>, listing: seq<string>) returns (rest: set<string>)
    ensures rest == candidates - Names(listing)
  {
    rest := candidates;
    for k := 0 to |listing|
      invariant rest == candidates - Names(listing[..k])
    {
      assert listing[..k + 1] == listing[..k] + [listing[k]];
      rest := rest - {listing[k]};
    }
    assert listing[..|listing|] == listing;
  }

  /**
   * Diff over the result of the clone: resolve, check out ref2 and list
   * dir, subtract what dir lists at ref1, check ref2 out again, read every
   * candidate and its newest commit, and sort by Issue.
   */
  method Diff(clone: Result<Repository, string>, ref1: string, ref2: string, dir: string)
    returns (r: Result<seq<Entry>, DiffError>)
    requires clone.Success? ==> clone.value.Valid()
    modifies if clone.Success? then {clone.value} else {}
    ensures clone.Failure? ==> r == Failure(CloneError(clone.error))
    ensures clone.Success? ==> DiffResult(clone.value.Snapshot(), ref1, ref2, dir, r)
  {
    if clone.Failure? {
      return Failure(CloneError(clone.error));
    }
    var repo := clone.value;
    ghost var st := repo.Snapshot();
    var rev2 :- repo.ResolveRevision(ref2);
    var rev1: Option<Hash> := None;
    if ref1 != "-" {
      var h :- repo.ResolveRevision(ref1);
      rev1 := Some(h);
    }
    var ok := repo.Checkout(rev2);
    if !ok {
      return Failure(CheckoutError(ref2));
    }
    var after :- repo.ReadDir(dir);
    var candidates := CollectNames(after);
    if rev1.Some? {
      ok := repo.Checkout(rev1.value);
      var before :- repo.ReadDir(dir);
      candidates := DeleteNames(candidates, before);
      ok := repo.Checkout(rev2);
      if !ok {
        return Failure(CheckoutError(ref2));
      }
    }
    assert Candidates(st, ref1, ref2, dir) == Success((rev2, candidates));
    var entries := ReadEntries(repo, dir, candidates);
    if entries.Failure? {
      return Failure(entries.error);
    }
    var sorted := SortedEntries(entries.value);
    DistinctIssuesSorted(st, rev2, dir, candidates, entries.value, sorted);
    return Success(sorted);
  }

  /** Two equal elements at distinct positions make a count of at least two. */
  lemma DuplicateCount<T>(s: seq<T>, i: nat, j: nat)
    requires i < j < |s| && s[i] == s[j]
    ensures multiset(s)[s[i]] >= 2
  {
    assert s == s[..j] + s[j..];
    assert s[..j][i] == s[i];
    assert s[j..][0] == s[i];
  }

  /**
   * Sorting keeps the entries and, since EntryFor fixes the entry of a name
   * and no entry occurs twice, the sorted entries are strictly ascending.
   */
  lemma DistinctIssuesSorted(st: Store, rev2: Hash, dir: string, names: set<string>, es: seq<Entry>, sorted: seq<Entry>)
    requires rev2 in st.trees
    requires ReadAt(st, rev2, dir, es) && Issues(es) == names
    requires forall x :: multiset(es)[x] <= 1
    requires multiset(sorted) == multiset(es) && SortedBy(sorted, IssueLess)
    ensures EntriesFor(st, rev2, dir, names, sorted)
  {
    forall e | e in sorted ensures e in es {
      assert e in multiset(sorted);
    }
    forall e | e in es ensures e in sorted {
      assert e in multiset(es);
    }
    forall i, j | 0 <= i < j < |sorted| ensures sorted[i].Issue != sorted[j].Issue {
      if sorted[i].Issue == sorted[j].Issue {
        assert sorted[i] in es && sorted[j] in es;
        DuplicateCount(sorted, i, j);
      }
    }
    SortedDistinctAscending(sorted);
  }

  /** The loop invariant of ReadEntries: entries read so far, one per name already taken. */
  ghost predicate ReadSoFar(st: Store, rev2: Hash, dir: string, candidates: set<string>, remaining: set<string>, entries: seq<Entry>)
    requires rev2 in st.trees
  {
    && remaining <= candidates
    && ReadAt(st, rev2, dir, entries)
    && Issues(entries) == candidates - remaining
    && forall x :: multiset(entries)[x] <= 1
  }

  /** Taking one more name and appending its entry keeps the invariant. */
  lemma ReadStep(st: Store, rev2: Hash, dir: string, candidates: set<string>, remaining: set<string>, entries: seq<Entry>, name: string, e: Entry)
    requires rev2 in st.trees
    requires ReadSoFar(st, rev2, dir, candidates, remaining, entries)
    requires name in remaining && EntryFor(st, rev2, dir, name) == Success(e)
    ensures ReadSoFar(st, rev2, dir, candidates, remaining - {name}, entries + [e])
  {
    assert e !in entries;
    assert Issues(entries + [e]) == Issues(entries) + {name};
  }

  /** Once no name remains, every candidate has an entry. */
  lemma ReadCovers(st: Store, rev2: Hash, dir: string, candidates: set<string>, entries: seq<Entry>)
    requires rev2 in st.trees
    requires ReadSoFar(st, rev2, dir, candidates, {}, entries)
    ensures forall n :: n in candidates ==> EntryFor(st, rev2, dir, n).Success?
  {
    forall n | n in candidates ensures EntryFor(st, rev2, dir, n).Success? {
      assert n in Issues(entries);
      var e :| e in entries && e.Issue == n;
    }
  }

  /**
   * The read loop of Diff: for every candidate, in any order, open and read
   * the file at the checked-out commit and take the newest commit of its
   * log; the first failure ends the loop.
   */
  method ReadEntries(repo: Repository, dir: string, candidates: set<string>) returns (r: Result<seq<Entry>, DiffError>)
    requires repo.Valid()
    ensures r.Success? ==> forall n :: n in candidates ==> EntryFor(repo.Snapshot(), repo.head, dir, n).Success?
    ensures r.Success? ==> ReadAt(repo.Snapshot(), repo.head, dir, r.value) && Issues(r.value) == candidates
    ensures r.Success? ==> forall x :: multiset(r.value)[x] <= 1
    ensures r.Failure? ==> exists n :: n in candidates && EntryFor(repo.Snapshot(), repo.head, dir, n) == Failure(r.error)
  {
    ghost var st := repo.Snapshot();
    var entries: seq<Entry> := [];
    var remaining := candidates;
    while remaining != {}
      invariant ReadSoFar(st, repo.head, dir, candidates, remaining, entries)
      decreases |remaining|
    {
      var name :| name in remaining;
      var fp := Path(dir, name);
      var f :- repo.Open(fp);
      var contents :- ReadAll(f, name);
      var log :- repo.Log(fp);
      var lastChange :- Next(log, fp);
      var e := Entry(name, contents, lastChange.When, lastChange.Hash);
      ReadStep(st, repo.head, dir, candidates, remaining, entries, name, e);
      entries := entries + [e];
      remaining := remaining - {name};
    }
    ReadCovers(st, repo.head, dir, candidates, entries);
    return Success(entries);
  }

  // ---- properties of Diff ----

  /** When Candidates succeeds, each of its checks passed; the first failing check names the error. */
  lemma CandidatesSucceedsIff(st: Store, ref1: string, ref2: string, dir: string)
    ensures Candidates(st, ref1, ref2, dir).Success? <==>
      && ref2 in st.refs && (ref1 == "-" || ref1 in st.refs)
      && st.refs[ref2] in st.trees && dir in st.trees[st.refs[ref2]].dirs
      && (ref1 == "-" || st.refs[ref1] !in st.trees || dir in st.trees[st.refs[ref1]].dirs)
    ensures ref2 !in st.refs ==> Candidates(st, ref1, ref2, dir) == Failure(ResolveError(ref2))
    ensures ref2 in st.refs && ref1 != "-" && ref1 !in st.refs ==> Candidates(st, ref1, ref2, dir) == Failure(ResolveError(ref1))
  {
  }

  /**
   * The candidate names are exactly those dir lists at ref2 and not at ref1;
   * with "-" as ref1 they are all names dir lists at ref2. Names are
   * compared, not contents: an entry changed between the revisions is not a
   * candidate.
   */
  lemma CandidatesAreNewNames(st: Store, ref1: string, ref2: string, dir: string, n: string)
    requires Candidates(st, ref1, ref2, dir).Success?
    ensures var rev2 := st.refs[ref2];
      n in Candidates(st, ref1, ref2, dir).value.1 <==>
        && n in Names(st.trees[rev2].dirs[dir])
        && (ref1 == "-" ||
            (st.refs[ref1] in st.trees && n !in Names(st.trees[st.refs[ref1]].dirs[dir])))
  {
  }

  /** Every entry Diff returns is a file new at ref2, with its contents and newest commit there. */
  lemma DiffEntriesAreNew(st: Store, ref1: string, ref2: string, dir: string, r: Result<seq<Entry>, DiffError>, e: Entry)
    requires DiffResult(st, ref1, ref2, dir, r) && r.Success? && e in r.value
    ensures ref2 in st.refs && st.refs[ref2] in st.trees
    ensures var rev2 := st.refs[ref2];
      var path := Path(dir, e.Issue);
      && e.Issue in Names(st.trees[rev2].dirs[dir])
      && (ref1 != "-" ==> st.refs[ref1] in st.trees && e.Issue !in Names(st.trees[st.refs[ref1]].dirs[dir]))
      && path in st.trees[rev2].files && st.trees[rev2].files[path] == Readable(e.Body)
      && (rev2, path) in st.history && st.history[(rev2, path)] != []
      && e.Hash == st.history[(rev2, path)][0].Hash && e.Date == st.history[(rev2, path)][0].When
  {
    var rev2 := st.refs[ref2];
    assert e.Issue in Issues(r.value);
    CandidatesAreNewNames(st, ref1, ref2, dir, e.Issue);
  }

  /** With "-" as ref1, Diff reports every entry dir lists at ref2. */
  lemma DashReportsAll(st: Store, ref2: string, dir: string, r: Result<seq<Entry>, DiffError>)
    requires DiffResult(st, "-", ref2, dir, r) && r.Success?
    ensures ref2 in st.refs && st.refs[ref2] in st.trees && dir in st.trees[st.refs[ref2]].dirs
    ensures Issues(r.value) == Names(st.trees[st.refs[ref2]].dirs[dir])
  {
  }

  /** No Issue has two entries: a set of names with no entries has an empty result. */
  lemma NoIssuesNoEntries(es: seq<Entry>)
    requires Issues(es) == {}
    ensures es == []
  {
    assert |es| > 0 ==> es[0].Issue in Issues(es);
  }

  /** Diffing a revision against itself reports nothing. */
  lemma SameRevisionReportsNothing(st: Store, ref1: string, ref2: string, dir: string, r: Result<seq<Entry>, DiffError>)
    requires ref1 != "-" && ref1 in st.refs && ref2 in st.refs && st.refs[ref1] == st.refs[ref2]
    requires DiffResult(st, ref1, ref2, dir, r) && r.Success?
    ensures r.value == []
  {
    NoIssuesNoEntries(r.value);
  }

  /**
   * The error of checking out ref1 is dropped: the worktree stays at ref2,
   * nothing is subtracted from nothing new, and Diff reports no entries
   * instead of failing.
   */
  lemma FailedRef1CheckoutReportsNothing(st: Store, ref1: string, ref2: string, dir: string, r: Result<seq<Entry>, DiffError>)
    requires ref1 != "-" && ref1 in st.refs && ref2 in st.refs && st.refs[ref1] !in st.trees
    requires DiffResult(st, ref1, ref2, dir, r)
    ensures r.Success? <==> Candidates(st, ref1, ref2, dir).Success?
    ensures r.Success? ==> r.value == []
  {
    if r.Success? {
      NoIssuesNoEntries(r.value);
    }
  }

  /** The first entry of a strictly ascending sequence has the least Issue. */
  lemma AscendingTail(es: seq<Entry>)
    requires Ascending(es) && es != []
    ensures Ascending(es[1..])
    ensures Issues(es[1..]) == Issues(es) - {es[0].Issue}
  {
    assert es == [es[0]] + es[1..];
    forall e | e in es[1..] ensures e.Issue != es[0].Issue {
      var k :| 0 <= k < |es[1..]| && es[1..][k] == e;
      assert Less(es[0].Issue, es[k + 1].Issue);
      LessIrreflexive(e.Issue);
    }
  }

  /** Two such sequences start with the same entry: the one for the least name. */
  lemma AscendingHeads(st: Store, rev2: Hash, dir: string, a: seq<Entry>, b: seq<Entry>)
    requires rev2 in st.trees && a != [] && b != []
    requires ReadAt(st, rev2, dir, a) && ReadAt(st, rev2, dir, b)
    requires Ascending(a) && Ascending(b) && Issues(a) == Issues(b)
    ensures a[0] == b[0]
  {
    assert a[0].Issue in Issues(b) && b[0].Issue in Issues(a);
    var k :| 0 <= k < |b| && b[k].Issue == a[0].Issue;
    var m :| 0 <= m < |a| && a[m].Issue == b[0].Issue;
    if a[0].Issue != b[0].Issue {
      assert k > 0 && m > 0;
      LessAsymmetric(a[0].Issue, a[m].Issue);
    }
    assert EntryFor(st, rev2, dir, a[0].Issue) == Success(a[0]);
    assert EntryFor(st, rev2, dir, b[0].Issue) == Success(b[0]);
  }

  /**
   * Entries read at one revision for one set of names, strictly ascending
   * by Issue, form one sequence only.
   */
  lemma {:induction false} AscendingUnique(st: Store, rev2: Hash, dir: string, a: seq<Entry>, b: seq<Entry>)
    requires rev2 in st.trees
    requires ReadAt(st, rev2, dir, a) && ReadAt(st, rev2, dir, b)
    requires Ascending(a) && Ascending(b) && Issues(a) == Issues(b)
    ensures a == b
    decreases |a|
  {
    if a == [] {
      NoIssuesNoEntries(b);
    } else if b == [] {
      NoIssuesNoEntries(a);
    } else {
      AscendingHeads(st, rev2, dir, a, b);
      AscendingTail(a);
      AscendingTail(b);
      AscendingUnique(st, rev2, dir, a[1..], b[1..]);
      assert a == [a[0]] + a[1..] && b == [b[0]] + b[1..];
    }
  }

  /**
   * A successful Diff is a function of the repository and its arguments,
   * although the read loop visits the candidates in map order.
   */
  lemma DiffDeterministic(st: Store, ref1: string, ref2: string, dir: string, r1: Result<seq<Entry>, DiffError>, r2: Result<seq<Entry>, DiffError>)
    requires DiffResult(st, ref1, ref2, dir, r1) && DiffResult(st, ref1, ref2, dir, r2)
    requires r1.Success?
    ensures r1 == r2
  {
    var rev2 := st.refs[ref2];
    AscendingUnique(st, rev2, dir, r1.value, r2.value);
  }

  // ---- an example ----

  /** Two revisions of a "changelog" directory; 103.txt is added at v2. */
  function ExampleStore(): Store {
    var dir := "changelog";
    var p1, p2, p3 := Path(dir, "101.txt"), Path(dir, "102.txt"), Path(dir, "103.txt");
    var t1 := Tree(map[dir := ["101.txt", "102.txt"]], map[p1 := Readable("a"), p2 := Readable("b")]);
    var t2 := Tree(map[dir := ["101.txt", "102.txt", "103.txt"]],
                   map[p1 := Readable("a"), p2 := Readable("b"), p3 := Readable("c")]);
    Store(map["v1" := "h1", "v2" := "h2"], map["h1" := t1, "h2" := t2],
          map[("h2", p3) := [Commit("h2", Time(2)), Commit("h0", Time(0))]])
  }

  /** The first part of Diff on the example: v2 is h2 and only 103.txt is new. */
  lemma ExampleCandidates()
    ensures Candidates(ExampleStore(), "v1", "v2", "changelog") == Success(("h2", {"103.txt"}))
  {
    var st := ExampleStore();
    var after := ["101.txt", "102.txt", "103.txt"];
    var before := ["101.txt", "102.txt"];
    assert Names(after) == {"101.txt", "102.txt", "103.txt"} by {
      assert after[0] == "101.txt" && after[1] == "102.txt" && after[2] == "103.txt";
    }
    assert Names(before) == {"101.txt", "102.txt"} by {
      assert before[0] == "101.txt" && before[1] == "102.txt";
    }
    assert "103.txt" != "101.txt" && "103.txt" != "102.txt" by {
      assert "103.txt"[2] == '3' && "101.txt"[2] == '1' && "102.txt"[2] == '2';
    }
    assert st.trees["h2"].dirs["changelog"] == after && st.trees["h1"].dirs["changelog"] == before;
    assert Names(after) - Names(before) == {"103.txt"};
  }

  /** Entries for a single name are the one entry read for it. */
  lemma SingleEntry(st: Store, rev2: Hash, dir: string, n: string, e: Entry, es: seq<Entry>)
    requires rev2 in st.trees
    requires EntriesFor(st, rev2, dir, {n}, es) && EntryFor(st, rev2, dir, n) == Success(e)
    ensures es == [e]
  {
    assert |es| <= 1 by {
      if |es| >= 2 {
        assert es[0].Issue in Issues(es) && es[1].Issue in Issues(es);
        LessIrreflexive(es[0].Issue);
      }
    }
    assert n in Issues(es);
    var x :| x in es && x.Issue == n;
    assert es == [x];
  }

  /** Diff from v1 to v2 reports exactly the entry added in between. */
  lemma ExampleDiff(r: Result<seq<Entry>, DiffError>)
    requires DiffResult(ExampleStore(), "v1", "v2", "changelog", r)
    ensures r == Success([Entry("103.txt", "c", Time(2), "h2")])
  {
    var st := ExampleStore();
    ExampleCandidates();
    var e := Entry("103.txt", "c", Time(2), "h2");
    assert EntryFor(st, "h2", "changelog", "103.txt") == Success(e);
    SingleEntry(st, "h2", "changelog", "103.txt", e, r.value);
  }
}

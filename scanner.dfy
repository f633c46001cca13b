/**
 * The scan-and-group engine of internal/core/scanner.go, as its sequential semantics.
 *
 * The walk of each root is an input: the sequence of items `filepath.Walk` hands to the
 * callback, each either a visited entry or a walk error. The fingerprint of a file is
 * `digest(algorithm, content)`, where `digest` stands for MD5 or SHA-256 and `content`
 * is absent when the file cannot be opened or read. The glob matcher is an input too.
 * One hashing goroutine per accepted entry appends under a mutex; since every reported
 * value is a sum or a filter over the finished map, the entries are processed here one
 * after the other, and `GroupMembersOrderIndependent` shows that the contents of every
 * group do not depend on that order.
 */
module Core {
  import opened Wrappers
  import opened Machine
  import opened Text

  // ---------------------------------------------------------------------------
  // Data model
  // ---------------------------------------------------------------------------

  datatype HashKind = MD5 | SHA256

  /** The Scanner record; no field changes after `NewScanner`. */
  datatype Scanner = Scanner(
    hashAlgorithm: string,
    minSize: int64,
    fileTypes: seq<string>,
    excludePatterns: seq<string>,
    concurrent: int)

  /** An entry reached by the walk: path, regular-file flag, size, and readable content. */
  datatype Entry = Entry(path: string, regular: bool, size: int64, content: Option<seq<byte>>)

  /** What the walk callback receives: an entry, or the error for a path it could not visit. */
  datatype WalkItem = Visit(entry: Entry) | WalkError(message: string)

  /** A path appended to a group, with the size the walk reported for it. */
  datatype FileRecord = FileRecord(path: string, size: int64)

  /** `filepath.Match(pattern, name)`: a match, no match, or a malformed pattern. */
  datatype MatchOutcome = Matched | NoMatch | BadPattern

  datatype ScanResult = ScanResult(
    duplicateGroups: map<string, seq<string>>,
    totalFiles: int,
    totalSize: int,
    savedSize: int)

  type Matcher = (string, string) -> MatchOutcome
  type Digest = (HashKind, seq<byte>) -> string
  type FileMap = map<string, seq<FileRecord>>

  /** The default bound on concurrent hashing. */
  const DefaultConcurrency: int := 5

  // ---------------------------------------------------------------------------
  // Construction and hasher selection
  // ---------------------------------------------------------------------------

  function NewScanner(hashAlgo: string, minSize: int64, fileTypes: seq<string>, excludePatterns: seq<string>): (s: Scanner)
    ensures s.hashAlgorithm == hashAlgo && s.minSize == minSize
    ensures s.fileTypes == fileTypes && s.excludePatterns == excludePatterns
    ensures s.concurrent == 5
  {
    Scanner(hashAlgo, minSize, fileTypes, excludePatterns, DefaultConcurrency)
  }

  /** SHA-256 for the exact name "sha256", MD5 for every other name. */
  function GetHasher(s: Scanner): (h: HashKind)
    ensures h == SHA256 <==> s.hashAlgorithm == "sha256"
    ensures h == MD5 <==> s.hashAlgorithm != "sha256"
  {
    if s.hashAlgorithm == "sha256" then SHA256 else MD5
  }

  // ---------------------------------------------------------------------------
  // The filter applied in the walk callback
  // ---------------------------------------------------------------------------

  predicate Excluded(patterns: seq<string>, name: string, matcher: Matcher) {
    exists i :: 0 <= i < |patterns| && matcher(patterns[i], name) == Matched
  }

  /** The loop over the exclusion patterns; a malformed pattern counts as no match. */
  method IsExcluded(patterns: seq<string>, name: string, matcher: Matcher) returns (excluded: bool)
    ensures excluded <==> exists i :: 0 <= i < |patterns| && matcher(patterns[i], name) == Matched
  {
    for i := 0 to |patterns|
      invariant forall k :: 0 <= k < i ==> matcher(patterns[k], name) != Matched
    {
      if matcher(patterns[i], name) == Matched {
        return true;
      }
    }
    return false;
  }

  predicate Eligible(s: Scanner, e: Entry, matcher: Matcher) {
    e.regular && e.size >= s.minSize && !Excluded(s.excludePatterns, Base(e.path), matcher)
  }

  /** The hex digest of the file, or None when `calculateFileHash` fails. */
  function Fingerprint(s: Scanner, e: Entry, digest: Digest): (r: Option<string>)
    ensures r.None? <==> e.content.None?
    ensures r.Some? ==> r.value == digest(GetHasher(s), e.content.value)
  {
    match e.content
    case None => None
    case Some(c) => Some(digest(GetHasher(s), c))
  }

  /** The key a walk item is appended under, or None when it is not appended anywhere. */
  function FiledUnder(s: Scanner, item: WalkItem, matcher: Matcher, digest: Digest): (r: Option<string>)
    ensures r.Some? ==> item.Visit? && Eligible(s, item.entry, matcher) && item.entry.content.Some?
    ensures r.Some? ==> r.value == digest(GetHasher(s), item.entry.content.value)
  {
    if item.Visit? && Eligible(s, item.entry, matcher) then Fingerprint(s, item.entry, digest) else None
  }

  function RecordOf(e: Entry): FileRecord {
    FileRecord(e.path, e.size)
  }

  // ---------------------------------------------------------------------------
  // Grouping (the map built under the mutex)
  // ---------------------------------------------------------------------------

  /** `fileMap[h] = append(fileMap[h], rec)`: only the list for `h` changes. */
  function Record(m: FileMap, h: string, rec: FileRecord): (m': FileMap)
    ensures m'.Keys == m.Keys + {h}
    ensures m'[h] == (if h in m then m[h] else []) + [rec]
    ensures forall k :: k in m && k != h ==> m'[k] == m[k]
  {
    m[h := (if h in m then m[h] else []) + [rec]]
  }

  /** The map after every item of `items` has been processed, in order. */
  function Group(s: Scanner, items: seq<WalkItem>, matcher: Matcher, digest: Digest): (g: FileMap)
    ensures forall h :: h in g ==> g[h] != []
  {
    if items == [] then map[]
    else
      var g := Group(s, items[..|items| - 1], matcher, digest);
      var last := items[|items| - 1];
      match FiledUnder(s, last, matcher, digest)
      case None => g
      case Some(h) => Record(g, h, RecordOf(last.entry))
  }

  /** Reference definition of one group: the records of the items filed under `h`, in order. */
  function Members(s: Scanner, items: seq<WalkItem>, h: string, matcher: Matcher, digest: Digest): seq<FileRecord> {
    if items == [] then []
    else
      var before := Members(s, items[..|items| - 1], h, matcher, digest);
      var last := items[|items| - 1];
      if FiledUnder(s, last, matcher, digest) == Some(h) then before + [RecordOf(last.entry)] else before
  }

  /** The map holds exactly the non-empty groups, each equal to its reference definition. */
  lemma {:induction false} GroupIsMembers(s: Scanner, items: seq<WalkItem>, h: string, matcher: Matcher, digest: Digest)
    ensures h in Group(s, items, matcher, digest) <==> Members(s, items, h, matcher, digest) != []
    ensures h in Group(s, items, matcher, digest) ==> Group(s, items, matcher, digest)[h] == Members(s, items, h, matcher, digest)
  {
    if items != [] {
      GroupIsMembers(s, items[..|items| - 1], h, matcher, digest);
    }
  }

  lemma {:induction false} MembersAppend(s: Scanner, a: seq<WalkItem>, b: seq<WalkItem>, h: string, matcher: Matcher, digest: Digest)
    ensures Members(s, a + b, h, matcher, digest) == Members(s, a, h, matcher, digest) + Members(s, b, h, matcher, digest)
  {
    if b == [] {
      assert a + b == a;
    } else {
      assert (a + b)[..|a + b| - 1] == a + b[..|b| - 1];
      assert (a + b)[|a + b| - 1] == b[|b| - 1];
      MembersAppend(s, a, b[..|b| - 1], h, matcher, digest);
    }
  }

  /** Item `k` of `items` is filed under `h` with record `rec`. */
  predicate FiledAt(s: Scanner, items: seq<WalkItem>, k: int, h: string, rec: FileRecord, matcher: Matcher, digest: Digest) {
    0 <= k < |items| && FiledUnder(s, items[k], matcher, digest) == Some(h) && RecordOf(items[k].entry) == rec
  }

  lemma {:induction false} MembersContain(s: Scanner, items: seq<WalkItem>, h: string, rec: FileRecord, matcher: Matcher, digest: Digest)
    ensures rec in Members(s, items, h, matcher, digest) <==> exists k :: FiledAt(s, items, k, h, rec, matcher, digest)
  {
    if items != [] {
      var n := |items| - 1;
      var init := items[..n];
      MembersContain(s, init, h, rec, matcher, digest);
      if rec in Members(s, items, h, matcher, digest) {
        if !FiledAt(s, items, n, h, rec, matcher, digest) {
          var k :| FiledAt(s, init, k, h, rec, matcher, digest);
          assert init[k] == items[k];
          assert FiledAt(s, items, k, h, rec, matcher, digest);
        }
      }
      if exists k :: FiledAt(s, items, k, h, rec, matcher, digest) {
        var k :| FiledAt(s, items, k, h, rec, matcher, digest);
        if k < n {
          assert init[k] == items[k];
          assert FiledAt(s, init, k, h, rec, matcher, digest);
        }
      }
    }
  }

  /**
   * A record is in the group for `h` exactly when some walked entry is a regular file of at
   * least `minSize` bytes whose base name no pattern matches (a malformed pattern does not
   * match), whose content could be read, whose digest is `h`, and whose path and size it is.
   */
  lemma GroupMembership(s: Scanner, items: seq<WalkItem>, h: string, rec: FileRecord, matcher: Matcher, digest: Digest)
    ensures (h in Group(s, items, matcher, digest) && rec in Group(s, items, matcher, digest)[h]) <==>
      exists k :: 0 <= k < |items| && AcceptedAs(s, items[k], h, rec, matcher, digest)
  {
    GroupIsMembers(s, items, h, matcher, digest);
    MembersContain(s, items, h, rec, matcher, digest);
    forall k | 0 <= k < |items|
      ensures FiledAt(s, items, k, h, rec, matcher, digest) <==> AcceptedAs(s, items[k], h, rec, matcher, digest)
    {
      AcceptedIsFiled(s, items[k], h, rec, matcher, digest);
    }
    if exists k :: FiledAt(s, items, k, h, rec, matcher, digest) {
      var k :| FiledAt(s, items, k, h, rec, matcher, digest);
      assert AcceptedAs(s, items[k], h, rec, matcher, digest);
    }
    if exists k :: 0 <= k < |items| && AcceptedAs(s, items[k], h, rec, matcher, digest) {
      var k :| 0 <= k < |items| && AcceptedAs(s, items[k], h, rec, matcher, digest);
      assert FiledAt(s, items, k, h, rec, matcher, digest);
    }
  }

  /**
   * The filter spelt out: a visited regular file of at least `minSize` bytes whose base name
   * no pattern matches (a malformed pattern does not match), whose content could be read,
   * whose digest is `h`, and whose path and size `rec` carries.
   */
  predicate AcceptedAs(s: Scanner, item: WalkItem, h: string, rec: FileRecord, matcher: Matcher, digest: Digest) {
    item.Visit? && item.entry.regular && item.entry.size >= s.minSize
    && (forall i :: 0 <= i < |s.excludePatterns| ==> matcher(s.excludePatterns[i], Base(item.entry.path)) != Matched)
    && item.entry.content.Some? && digest(GetHasher(s), item.entry.content.value) == h
    && rec == FileRecord(item.entry.path, item.entry.size)
  }

  lemma AcceptedIsFiled(s: Scanner, item: WalkItem, h: string, rec: FileRecord, matcher: Matcher, digest: Digest)
    ensures AcceptedAs(s, item, h, rec, matcher, digest) <==>
      (FiledUnder(s, item, matcher, digest) == Some(h) && RecordOf(item.entry) == rec)
  {
  }

  /**
   * Patterns are tried only on the base names of regular files, and nothing skips a
   * directory: with the pattern ".git", a file inside a `.git` directory is still grouped.
   */
  lemma DirectoryPatternKeepsItsFiles(s: Scanner, items: seq<WalkItem>, k: nat, matcher: Matcher, digest: Digest)
    requires s.excludePatterns == [".git"] && matcher(".git", "config") != Matched
    requires k < |items| && items[k].Visit? && items[k].entry.path == "/r/.git/config"
    requires items[k].entry.regular && items[k].entry.size >= s.minSize && items[k].entry.content.Some?
    ensures var h := digest(GetHasher(s), items[k].entry.content.value);
      h in Group(s, items, matcher, digest) && RecordOf(items[k].entry) in Group(s, items, matcher, digest)[h]
  {
    BaseInsideGit();
    EligibleEntryIsGrouped(s, items, k, matcher, digest);
  }

  lemma BaseInsideGit()
    ensures Base("/r/.git/config") == "config"
  {
    assert "/r/.git/config" == "/r/.git" + "/" + "config";
    BaseAfterSlash("/r/.git", "config");
  }

  /** A walked entry that passes the filter and can be read lands in the group of its digest. */
  lemma EligibleEntryIsGrouped(s: Scanner, items: seq<WalkItem>, k: nat, matcher: Matcher, digest: Digest)
    requires k < |items| && items[k].Visit?
    requires items[k].entry.regular && items[k].entry.size >= s.minSize
    requires forall i :: 0 <= i < |s.excludePatterns| ==> matcher(s.excludePatterns[i], Base(items[k].entry.path)) != Matched
    requires items[k].entry.content.Some?
    ensures var h := digest(GetHasher(s), items[k].entry.content.value);
      h in Group(s, items, matcher, digest) && RecordOf(items[k].entry) in Group(s, items, matcher, digest)[h]
  {
    var h := digest(GetHasher(s), items[k].entry.content.value);
    GroupMembership(s, items, h, RecordOf(items[k].entry), matcher, digest);
  }

  /** Two accepted files with identical bytes are in one group. */
  lemma SameContentSameGroup(s: Scanner, items: seq<WalkItem>, j: nat, k: nat, matcher: Matcher, digest: Digest)
    requires j < |items| && k < |items| && items[j].Visit? && items[k].Visit?
    requires FiledUnder(s, items[j], matcher, digest).Some? && FiledUnder(s, items[k], matcher, digest).Some?
    requires items[j].entry.content == items[k].entry.content
    ensures var g := Group(s, items, matcher, digest);
      exists h :: h in g && RecordOf(items[j].entry) in g[h] && RecordOf(items[k].entry) in g[h]
  {
    var h := FiledUnder(s, items[j], matcher, digest).value;
    assert FiledUnder(s, items[k], matcher, digest) == Some(h);
    assert FiledAt(s, items, j, h, RecordOf(items[j].entry), matcher, digest);
    assert FiledAt(s, items, k, h, RecordOf(items[k].entry), matcher, digest);
    GroupIsMembers(s, items, h, matcher, digest);
    MembersContain(s, items, h, RecordOf(items[j].entry), matcher, digest);
    MembersContain(s, items, h, RecordOf(items[k].entry), matcher, digest);
  }

  /**
   * An item that is filed nowhere (a rejected entry, an entry whose hashing fails, a walk
   * error) can be dropped without changing the map: the other entries are processed as before.
   */
  lemma {:induction false} UnfiledItemIgnored(s: Scanner, a: seq<WalkItem>, x: WalkItem, b: seq<WalkItem>, matcher: Matcher, digest: Digest)
    requires FiledUnder(s, x, matcher, digest).None?
    ensures Group(s, a + [x] + b, matcher, digest) == Group(s, a + b, matcher, digest)
  {
    if b == [] {
      assert (a + [x] + b)[..|a + [x] + b| - 1] == a;
      assert a + [x] + b == a + [x] && a + b == a;
    } else {
      var c := b[..|b| - 1];
      assert (a + [x] + b)[..|a + [x] + b| - 1] == a + [x] + c;
      assert (a + b)[..|a + b| - 1] == a + c;
      assert (a + [x] + b)[|a + [x] + b| - 1] == b[|b| - 1] == (a + b)[|a + b| - 1];
      UnfiledItemIgnored(s, a, x, c, matcher, digest);
    }
  }

  /**
   * The goroutines may append in any order: for any reordering of the walked items,
   * every group holds the same records with the same multiplicities.
   */
  lemma {:induction false} GroupMembersOrderIndependent(s: Scanner, items: seq<WalkItem>, items': seq<WalkItem>, h: string, matcher: Matcher, digest: Digest)
    requires multiset(items) == multiset(items')
    ensures multiset(Members(s, items, h, matcher, digest)) == multiset(Members(s, items', h, matcher, digest))
    decreases |items|
  {
    if items != [] {
      var x := items[0];
      assert x in multiset(items');
      var i :| 0 <= i < |items'| && items'[i] == x;
      var rest := items'[..i] + items'[i + 1..];
      assert items' == items'[..i] + [x] + items'[i + 1..];
      assert items == [x] + items[1..];
      assert multiset(items') == multiset(items'[..i]) + multiset([x]) + multiset(items'[i + 1..]);
      assert multiset(items) == multiset([x]) + multiset(items[1..]);
      assert multiset(rest) == multiset(items'[..i]) + multiset(items'[i + 1..]);
      assert multiset(items[1..]) == multiset(items) - multiset([x]);
      assert multiset(rest) == multiset(items') - multiset([x]);
      GroupMembersOrderIndependent(s, items[1..], rest, h, matcher, digest);
      MembersAppend(s, [x], items[1..], h, matcher, digest);
      MembersAppend(s, items'[..i], items'[i + 1..], h, matcher, digest);
      MembersAppend(s, items'[..i], [x], h, matcher, digest);
      MembersAppend(s, items'[..i] + [x], items'[i + 1..], h, matcher, digest);
    } else {
      assert items' == [];
    }
  }

  /** The same keys appear whatever the order of the walked items. */
  lemma GroupKeysOrderIndependent(s: Scanner, items: seq<WalkItem>, items': seq<WalkItem>, matcher: Matcher, digest: Digest)
    requires multiset(items) == multiset(items')
    ensures Group(s, items, matcher, digest).Keys == Group(s, items', matcher, digest).Keys
  {
    forall h ensures h in Group(s, items, matcher, digest) <==> h in Group(s, items', matcher, digest) {
      GroupIsMembers(s, items, h, matcher, digest);
      GroupIsMembers(s, items', h, matcher, digest);
      GroupMembersOrderIndependent(s, items, items', h, matcher, digest);
      assert |Members(s, items, h, matcher, digest)| == |multiset(Members(s, items, h, matcher, digest))|;
      assert |Members(s, items', h, matcher, digest)| == |multiset(Members(s, items', h, matcher, digest))|;
    }
  }

  /** `FileTypes` and the concurrency bound are stored but play no part in the grouping. */
  lemma {:induction false} GroupIgnoresFileTypesAndConcurrency(s: Scanner, fileTypes: seq<string>, concurrent: int, items: seq<WalkItem>, matcher: Matcher, digest: Digest)
    ensures Group(s.(fileTypes := fileTypes, concurrent := concurrent), items, matcher, digest) == Group(s, items, matcher, digest)
  {
    if items != [] {
      GroupIgnoresFileTypesAndConcurrency(s, fileTypes, concurrent, items[..|items| - 1], matcher, digest);
    }
  }

  // ---------------------------------------------------------------------------
  // Finalisation: sums over the keys of the map
  // ---------------------------------------------------------------------------

  /** The sum of `w` over the lists of the keys `ks`, in no particular order. */
  ghost function SumOver(m: FileMap, ks: set<string>, w: seq<FileRecord> -> int): int
    requires ks <= m.Keys
    decreases ks
  {
    if ks == {} then 0
    else
      var k :| k in ks;
      w(m[k]) + SumOver(m, ks - {k}, w)
  }

  lemma {:induction false} SumOverRemove(m: FileMap, ks: set<string>, w: seq<FileRecord> -> int, k: string)
    requires ks <= m.Keys && k in ks
    ensures SumOver(m, ks, w) == w(m[k]) + SumOver(m, ks - {k}, w)
    decreases ks
  {
    var k' :| k' in ks && SumOver(m, ks, w) == w(m[k']) + SumOver(m, ks - {k'}, w);
    if k' != k {
      SumOverRemove(m, ks - {k'}, w, k);
      SumOverRemove(m, ks - {k}, w, k');
      assert ks - {k'} - {k} == ks - {k} - {k'};
    }
  }

  /** Summing pointwise smaller weights gives a smaller sum. */
  lemma {:induction false} SumOverMonotone(m1: FileMap, m2: FileMap, ks: set<string>, w1: seq<FileRecord> -> int, w2: seq<FileRecord> -> int)
    requires ks <= m1.Keys && ks <= m2.Keys
    requires forall k :: k in ks ==> w1(m1[k]) <= w2(m2[k])
    ensures SumOver(m1, ks, w1) <= SumOver(m2, ks, w2)
    decreases ks
  {
    if ks != {} {
      var k :| k in ks;
      SumOverRemove(m1, ks, w1, k);
      SumOverRemove(m2, ks, w2, k);
      SumOverMonotone(m1, m2, ks - {k}, w1, w2);
    }
  }

  lemma SumOverSame(m1: FileMap, m2: FileMap, ks: set<string>, w1: seq<FileRecord> -> int, w2: seq<FileRecord> -> int)
    requires ks <= m1.Keys && ks <= m2.Keys
    requires forall k :: k in ks ==> w1(m1[k]) == w2(m2[k])
    ensures SumOver(m1, ks, w1) == SumOver(m2, ks, w2)
  {
    SumOverMonotone(m1, m2, ks, w1, w2);
    SumOverMonotone(m2, m1, ks, w2, w1);
  }

  function FileCount(g: seq<FileRecord>): int {
    |g|
  }

  /** The size of `files[0]`, which the source reads again with `os.Stat`. */
  function RepresentativeSize(g: seq<FileRecord>): int {
    if g == [] then 0 else g[0].size
  }

  function GroupBytes(g: seq<FileRecord>): int {
    RepresentativeSize(g) * |g|
  }

  function SavedBytes(g: seq<FileRecord>): int {
    if |g| > 1 then RepresentativeSize(g) * (|g| - 1) else 0
  }

  function Paths(g: seq<FileRecord>): (r: seq<string>)
    ensures |r| == |g| && forall i :: 0 <= i < |g| ==> r[i] == g[i].path
  {
    seq(|g|, i requires 0 <= i < |g| => g[i].path)
  }

  /** The ScanResult the final loop over the map builds. */
  ghost function Summary(m: FileMap): ScanResult {
    ScanResult(
      map h | h in m && |m[h]| > 1 :: Paths(m[h]),
      SumOver(m, m.Keys, FileCount),
      SumOver(m, m.Keys, GroupBytes),
      SumOver(m, m.Keys, SavedBytes))
  }

  /** The number of walk items that are appended somewhere. */
  function FiledCount(s: Scanner, items: seq<WalkItem>, matcher: Matcher, digest: Digest): nat {
    if items == [] then 0
    else
      FiledCount(s, items[..|items| - 1], matcher, digest)
        + if FiledUnder(s, items[|items| - 1], matcher, digest).Some? then 1 else 0
  }

  lemma SumOverRecordCount(m: FileMap, h: string, rec: FileRecord)
    ensures SumOver(Record(m, h, rec), Record(m, h, rec).Keys, FileCount) == SumOver(m, m.Keys, FileCount) + 1
  {
    var m' := Record(m, h, rec);
    assert FileCount(m'[h]) == (if h in m then |m[h]| else 0) + 1;
    SumOverRemove(m', m'.Keys, FileCount, h);
    SumOverSame(m', m, m'.Keys - {h} , FileCount, FileCount);
    if h in m {
      assert m'.Keys == m.Keys && FileCount(m[h]) == |m[h]|;
      SumOverRemove(m, m.Keys, FileCount, h);
    } else {
      assert m'.Keys - {h} == m.Keys;
    }
  }

  /** TotalFiles counts every file that was hashed, singleton groups included. */
  lemma {:induction false} TotalFilesCountsFiled(s: Scanner, items: seq<WalkItem>, matcher: Matcher, digest: Digest)
    ensures Summary(Group(s, items, matcher, digest)).totalFiles == FiledCount(s, items, matcher, digest)
  {
    if items != [] {
      var init := items[..|items| - 1];
      TotalFilesCountsFiled(s, init, matcher, digest);
      var last := items[|items| - 1];
      match FiledUnder(s, last, matcher, digest)
      case None =>
      case Some(h) =>
        SumOverRecordCount(Group(s, init, matcher, digest), h, RecordOf(last.entry));
    }
  }

  /** TotalFiles does not depend on the order in which the walked items are hashed. */
  lemma TotalFilesOrderIndependent(s: Scanner, items: seq<WalkItem>, items': seq<WalkItem>, matcher: Matcher, digest: Digest)
    requires multiset(items) == multiset(items')
    ensures Summary(Group(s, items, matcher, digest)).totalFiles == Summary(Group(s, items', matcher, digest)).totalFiles
    ensures Summary(Group(s, items, matcher, digest)).duplicateGroups.Keys == Summary(Group(s, items', matcher, digest)).duplicateGroups.Keys
  {
    var g, g' := Group(s, items, matcher, digest), Group(s, items', matcher, digest);
    GroupKeysOrderIndependent(s, items, items', matcher, digest);
    forall h | h in g ensures |g[h]| == |g'[h]| {
      GroupIsMembers(s, items, h, matcher, digest);
      GroupIsMembers(s, items', h, matcher, digest);
      GroupMembersOrderIndependent(s, items, items', h, matcher, digest);
      assert |Members(s, items, h, matcher, digest)| == |multiset(Members(s, items, h, matcher, digest))|;
      assert |Members(s, items', h, matcher, digest)| == |multiset(Members(s, items', h, matcher, digest))|;
    }
    SumOverSame(g, g', g.Keys, FileCount, FileCount);
  }

  /** Every record of every group has the group's representative size. */
  predicate UniformSizes(m: FileMap) {
    forall h, rec :: h in m && rec in m[h] ==> rec.size == RepresentativeSize(m[h])
  }

  /**
   * TotalSize and SavedSize do not depend on the processing order either, provided the
   * files of each group all have one size (as they do when equal digests mean equal
   * contents). Without that proviso they can differ: see `FirstSizeCounts`.
   */
  lemma SizesOrderIndependent(s: Scanner, items: seq<WalkItem>, items': seq<WalkItem>, matcher: Matcher, digest: Digest)
    requires multiset(items) == multiset(items')
    requires UniformSizes(Group(s, items, matcher, digest))
    ensures Summary(Group(s, items, matcher, digest)).totalSize == Summary(Group(s, items', matcher, digest)).totalSize
    ensures Summary(Group(s, items, matcher, digest)).savedSize == Summary(Group(s, items', matcher, digest)).savedSize
  {
    var g, g' := Group(s, items, matcher, digest), Group(s, items', matcher, digest);
    GroupKeysOrderIndependent(s, items, items', matcher, digest);
    forall h | h in g ensures GroupBytes(g[h]) == GroupBytes(g'[h]) && SavedBytes(g[h]) == SavedBytes(g'[h]) {
      GroupIsMembers(s, items, h, matcher, digest);
      GroupIsMembers(s, items', h, matcher, digest);
      GroupMembersOrderIndependent(s, items, items', h, matcher, digest);
      SameFigures(g[h], g'[h]);
    }
    SumOverSame(g, g', g.Keys, GroupBytes, GroupBytes);
    SumOverSame(g, g', g.Keys, SavedBytes, SavedBytes);
  }

  /** Two orderings of the same records, all of one size, give the same byte figures. */
  lemma SameFigures(a: seq<FileRecord>, b: seq<FileRecord>)
    requires multiset(a) == multiset(b) && a != []
    requires forall rec :: rec in a ==> rec.size == RepresentativeSize(a)
    ensures GroupBytes(a) == GroupBytes(b) && SavedBytes(a) == SavedBytes(b)
  {
    assert |a| == |multiset(a)| == |multiset(b)| == |b|;
    assert b[0] in multiset(b);
    assert b[0] in a;
  }

  /**
   * The size of a group is that of whichever file was appended first: two matching
   * records of sizes 5 and 7 count as 10 bytes in one order and as 14 in the other.
   */
  lemma FirstSizeCounts(s: Scanner, x: WalkItem, y: WalkItem, h: string, matcher: Matcher, digest: Digest)
    requires FiledUnder(s, x, matcher, digest) == Some(h) && FiledUnder(s, y, matcher, digest) == Some(h)
    requires x.entry.size == 5 && y.entry.size == 7
    ensures Summary(Group(s, [x, y], matcher, digest)).totalSize == 10
    ensures Summary(Group(s, [y, x], matcher, digest)).totalSize == 14
  {
    PairGroup(s, x, y, h, matcher, digest);
    PairGroup(s, y, x, h, matcher, digest);
    SingleKeySum(Group(s, [x, y], matcher, digest), h, GroupBytes);
    SingleKeySum(Group(s, [y, x], matcher, digest), h, GroupBytes);
  }

  /** Two items filed under one key make one group, in walk order. */
  lemma PairGroup(s: Scanner, x: WalkItem, y: WalkItem, h: string, matcher: Matcher, digest: Digest)
    requires FiledUnder(s, x, matcher, digest) == Some(h) && FiledUnder(s, y, matcher, digest) == Some(h)
    ensures var g := Group(s, [x, y], matcher, digest);
      g.Keys == {h} && g[h] == [RecordOf(x.entry), RecordOf(y.entry)]
  {
    GroupSnoc(s, [], x, matcher, digest);
    assert [] + [x] == [x];
    GroupSnoc(s, [x], y, matcher, digest);
    assert [x] + [y] == [x, y];
  }

  /** The sum over a map with one key is the weight of its list. */
  lemma SingleKeySum(m: FileMap, h: string, w: seq<FileRecord> -> int)
    requires m.Keys == {h}
    ensures SumOver(m, m.Keys, w) == w(m[h])
  {
    SumOverRemove(m, m.Keys, w, h);
    assert m.Keys - {h} == {};
  }

  /** With non-negative sizes, what could be freed never exceeds what was scanned. */
  lemma SavedAtMostTotal(m: FileMap)
    requires forall h :: h in m ==> RepresentativeSize(m[h]) >= 0
    ensures 0 <= Summary(m).savedSize <= Summary(m).totalSize
  {
    forall h | h in m ensures ZeroWeight(m[h]) <= SavedBytes(m[h]) <= GroupBytes(m[h]) {
      GroupSavingBounds(m[h]);
    }
    SumOverMonotone(m, m, m.Keys, SavedBytes, GroupBytes);
    SumOverMonotone(m, m, m.Keys, ZeroWeight, SavedBytes);
    ZeroWeightSumsToZero(m, m.Keys);
  }

  lemma GroupSavingBounds(g: seq<FileRecord>)
    requires RepresentativeSize(g) >= 0
    ensures 0 <= SavedBytes(g) <= GroupBytes(g)
  {
    if |g| > 1 {
      FewerCopiesBound(RepresentativeSize(g), |g|);
    }
  }

  /** `r * (n - 1)` lies between 0 and `r * n` for a non-negative `r`. */
  lemma FewerCopiesBound(r: int, n: int)
    requires r >= 0 && n >= 1
    ensures 0 <= r * (n - 1) <= r * n
  {
    assert r * n == r * (n - 1) + r;
  }

  /** The weight that gives every group 0, the lower bound of the bytes saved. */
  function ZeroWeight(g: seq<FileRecord>): int {
    0
  }

  lemma {:induction false} ZeroWeightSumsToZero(m: FileMap, ks: set<string>)
    requires ks <= m.Keys
    ensures SumOver(m, ks, ZeroWeight) == 0
    decreases ks
  {
    if ks != {} {
      var k :| k in ks;
      SumOverRemove(m, ks, ZeroWeight, k);
      ZeroWeightSumsToZero(m, ks - {k});
    }
  }

  /** Every grouped size is at least `minSize`, so a non-negative minimum gives non-negative sizes. */
  lemma GroupedSizesAtLeastMin(s: Scanner, items: seq<WalkItem>, matcher: Matcher, digest: Digest)
    ensures forall h :: h in Group(s, items, matcher, digest) ==> RepresentativeSize(Group(s, items, matcher, digest)[h]) >= s.minSize
  {
    var g := Group(s, items, matcher, digest);
    forall h | h in g ensures RepresentativeSize(g[h]) >= s.minSize {
      GroupMembership(s, items, h, g[h][0], matcher, digest);
    }
  }

  /** A scan that reaches no file reports no groups and all totals zero. */
  lemma EmptyScan(s: Scanner, matcher: Matcher, digest: Digest)
    ensures Summary(Group(s, [], matcher, digest)) == ScanResult(map[], 0, 0, 0)
  {
  }

  /** The scenario's three files, as the walk reports them. */
  function ScenarioItems(cx: seq<byte>, cz: seq<byte>): seq<WalkItem> {
    [Visit(Entry("/a/x", true, 5, Some(cx))), Visit(Entry("/a/y", true, 5, Some(cx))), Visit(Entry("/a/z", true, 3, Some(cz)))]
  }

  /** How the scenario's files are grouped: the two copies together, the other file alone. */
  lemma ScenarioGroups(cx: seq<byte>, cz: seq<byte>, matcher: Matcher, digest: Digest)
    requires digest(MD5, cx) != digest(MD5, cz)
    ensures var g := Group(NewScanner("md5", 0, [], []), ScenarioItems(cx, cz), matcher, digest);
      g.Keys == {digest(MD5, cx), digest(MD5, cz)}
      && g[digest(MD5, cx)] == [FileRecord("/a/x", 5), FileRecord("/a/y", 5)]
      && g[digest(MD5, cz)] == [FileRecord("/a/z", 3)]
  {
    var s := NewScanner("md5", 0, [], []);
    var x, y, z := ScenarioItems(cx, cz)[0], ScenarioItems(cx, cz)[1], ScenarioItems(cx, cz)[2];
    assert s.hashAlgorithm == "md5" && s.minSize == 0 && s.excludePatterns == [];
    assert GetHasher(s) == MD5;
    FiledWithoutPatterns(s, x.entry, matcher, digest);
    FiledWithoutPatterns(s, y.entry, matcher, digest);
    FiledWithoutPatterns(s, z.entry, matcher, digest);
    assert [x, y, z] == ScenarioItems(cx, cz);
    GroupOfThree(s, x, y, z, digest(MD5, cx), digest(MD5, cz), matcher, digest);
  }

  /** With no exclusion patterns, a large enough regular file that hashes is filed under its digest. */
  lemma FiledWithoutPatterns(s: Scanner, e: Entry, matcher: Matcher, digest: Digest)
    requires s.excludePatterns == [] && e.regular && e.size >= s.minSize && e.content.Some?
    ensures FiledUnder(s, Visit(e), matcher, digest) == Some(digest(GetHasher(s), e.content.value))
  {
  }

  /** Two items filed under one key and a third under another. */
  lemma GroupOfThree(s: Scanner, x: WalkItem, y: WalkItem, z: WalkItem, hx: string, hz: string, matcher: Matcher, digest: Digest)
    requires hx != hz
    requires FiledUnder(s, x, matcher, digest) == Some(hx) && FiledUnder(s, y, matcher, digest) == Some(hx)
    requires FiledUnder(s, z, matcher, digest) == Some(hz)
    ensures var g := Group(s, [x, y, z], matcher, digest);
      g.Keys == {hx, hz} && g[hx] == [RecordOf(x.entry), RecordOf(y.entry)] && g[hz] == [RecordOf(z.entry)]
  {
    GroupSnoc(s, [], x, matcher, digest);
    assert [] + [x] == [x];
    GroupSnoc(s, [x], y, matcher, digest);
    assert [x] + [y] == [x, y];
    GroupSnoc(s, [x, y], z, matcher, digest);
    assert [x, y] + [z] == [x, y, z];
  }

  /** One more item: appended under its key, if it has one. */
  lemma GroupSnoc(s: Scanner, items: seq<WalkItem>, x: WalkItem, matcher: Matcher, digest: Digest)
    ensures FiledUnder(s, x, matcher, digest).None? ==>
      Group(s, items + [x], matcher, digest) == Group(s, items, matcher, digest)
    ensures FiledUnder(s, x, matcher, digest).Some? ==>
      Group(s, items + [x], matcher, digest)
        == Record(Group(s, items, matcher, digest), FiledUnder(s, x, matcher, digest).value, RecordOf(x.entry))
  {
    assert (items + [x])[..|items|] == items;
  }

  /**
   * Two 5-byte files with the same content and one 3-byte file with other content:
   * three files, 13 bytes, one group of two, 5 bytes to free.
   */
  lemma TwoCopiesAndOneOther(cx: seq<byte>, cz: seq<byte>, matcher: Matcher, digest: Digest)
    requires digest(MD5, cx) != digest(MD5, cz)
    ensures var r := Summary(Group(NewScanner("md5", 0, [], []), ScenarioItems(cx, cz), matcher, digest));
      r.totalFiles == 3 && r.totalSize == 13 && r.savedSize == 5
      && r.duplicateGroups == map[digest(MD5, cx) := ["/a/x", "/a/y"]]
  {
    ScenarioGroups(cx, cz, matcher, digest);
    SummaryOfTwoGroups(Group(NewScanner("md5", 0, [], []), ScenarioItems(cx, cz), matcher, digest),
      digest(MD5, cx), digest(MD5, cz));
  }

  lemma SummaryOfTwoGroups(g: FileMap, hx: string, hz: string)
    requires hx != hz && g.Keys == {hx, hz}
    requires g[hx] == [FileRecord("/a/x", 5), FileRecord("/a/y", 5)] && g[hz] == [FileRecord("/a/z", 3)]
    ensures var r := Summary(g);
      r.totalFiles == 3 && r.totalSize == 13 && r.savedSize == 5
      && r.duplicateGroups == map[hx := ["/a/x", "/a/y"]]
  {
    assert g.Keys - {hx} == {hz};
    SumOverRemove(g, g.Keys, FileCount, hx);
    SumOverRemove(g, {hz}, FileCount, hz);
    SumOverRemove(g, g.Keys, GroupBytes, hx);
    SumOverRemove(g, {hz}, GroupBytes, hz);
    SumOverRemove(g, g.Keys, SavedBytes, hx);
    SumOverRemove(g, {hz}, SavedBytes, hz);
    assert Paths(g[hx]) == ["/a/x", "/a/y"];
  }

  // ---------------------------------------------------------------------------
  // The walk: roots, items, and the first error
  // ---------------------------------------------------------------------------

  /** The items of every root, root after root. */
  function Flatten(roots: seq<seq<WalkItem>>): seq<WalkItem> {
    if roots == [] then [] else Flatten(roots[..|roots| - 1]) + roots[|roots| - 1]
  }

  /** The error that stops the walk, if any: the callback returns the first one it sees. */
  function FirstError(items: seq<WalkItem>): Option<string> {
    if items == [] then None
    else if items[0].WalkError? then Some(items[0].message)
    else FirstError(items[1..])
  }

  /** The error reported is that of the first error item, and there is none exactly when no item is an error. */
  lemma {:induction false} FirstErrorIsFirst(items: seq<WalkItem>) returns (k: nat)
    ensures FirstError(items).None? <==> forall i :: 0 <= i < |items| ==> !items[i].WalkError?
    ensures FirstError(items).Some? ==>
      k < |items| && items[k] == WalkError(FirstError(items).value) && forall j :: 0 <= j < k ==> !items[j].WalkError?
  {
    k := 0;
    if items != [] && !items[0].WalkError? {
      var k' := FirstErrorIsFirst(items[1..]);
      k := k' + 1;
      assert forall i :: 1 <= i < |items| ==> items[i] == items[1..][i - 1];
    }
  }

  lemma {:induction false} FlattenAppend(a: seq<seq<WalkItem>>, b: seq<seq<WalkItem>>)
    ensures Flatten(a + b) == Flatten(a) + Flatten(b)
  {
    if b == [] {
      assert a + b == a;
    } else {
      assert (a + b)[..|a + b| - 1] == a + b[..|b| - 1];
      FlattenAppend(a, b[..|b| - 1]);
    }
  }

  lemma {:induction false} FirstErrorAppend(a: seq<WalkItem>, b: seq<WalkItem>)
    ensures FirstError(a + b) == if FirstError(a).Some? then FirstError(a) else FirstError(b)
  {
    if a == [] {
      assert a + b == b;
    } else {
      assert (a + b)[0] == a[0] && (a + b)[1..] == a[1..] + b;
      FirstErrorAppend(a[1..], b);
    }
  }

  /** An error item met before any other error is the error of the whole scan. */
  lemma ErrorStopsScan(roots: seq<seq<WalkItem>>, i: nat, j: nat)
    requires i < |roots| && j < |roots[i]| && roots[i][j].WalkError?
    requires FirstError(Flatten(roots[..i]) + roots[i][..j]) == None
    ensures FirstError(Flatten(roots)) == Some(roots[i][j].message)
  {
    var w := roots[i];
    var before, rest := Flatten(roots[..i]), Flatten(roots[i + 1..]);
    FlattenSplit(roots, i);
    assert w == w[..j] + w[j..];
    assert Flatten(roots) == (before + w[..j]) + (w[j..] + rest);
    FirstErrorAppend(before + w[..j], w[j..] + rest);
    assert (w[j..] + rest)[0] == w[j];
  }

  lemma SplitAround<T>(xs: seq<T>, i: nat)
    requires i < |xs|
    ensures xs == (xs[..i] + [xs[i]]) + xs[i + 1..]
  {
  }

  lemma FlattenSingle(w: seq<WalkItem>)
    ensures Flatten([w]) == w
  {
    assert [w][..0] == [];
    assert [] + w == w;
  }

  lemma FlattenSplit(roots: seq<seq<WalkItem>>, i: nat)
    requires i < |roots|
    ensures Flatten(roots) == Flatten(roots[..i]) + roots[i] + Flatten(roots[i + 1..])
  {
    var pre, w, post := roots[..i], roots[i], roots[i + 1..];
    SplitAround(roots, i);
    FlattenAppend(pre + [w], post);
    FlattenAppend(pre, [w]);
    FlattenSingle(w);
  }

  // ---------------------------------------------------------------------------
  // Scan
  // ---------------------------------------------------------------------------

  /**
   * `Scanner.Scan`: walk every root in order, filter, hash and append; a walk error aborts
   * with that error and no result; otherwise the loop over the map's keys (in any order)
   * builds the groups with more than one member and the three totals.
   */
  method Scan(s: Scanner, roots: seq<seq<WalkItem>>, matcher: Matcher, digest: Digest) returns (r: Result<ScanResult, string>)
    ensures FirstError(Flatten(roots)).Some? ==> r == Failure(FirstError(Flatten(roots)).value)
    ensures FirstError(Flatten(roots)).None? ==> r == Success(Summary(Group(s, Flatten(roots), matcher, digest)))
  {
    var fileMap: FileMap := map[];
    var i := 0;
    while i < |roots|
      invariant 0 <= i <= |roots|
      invariant FirstError(Flatten(roots[..i])) == None
      invariant fileMap == Group(s, Flatten(roots[..i]), matcher, digest)
    {
      var walk := roots[i];
      ghost var before := Flatten(roots[..i]);
      var j := 0;
      assert before + walk[..0] == before;
      while j < |walk|
        invariant 0 <= j <= |walk|
        invariant FirstError(before + walk[..j]) == None
        invariant fileMap == Group(s, before + walk[..j], matcher, digest)
      {
        ghost var done := before + walk[..j + 1];
        assert done == (before + walk[..j]) + [walk[j]];
        assert done[..|done| - 1] == before + walk[..j] && done[|done| - 1] == walk[j];
        match walk[j]
        case WalkError(message) =>
          ErrorStopsScan(roots, i, j);
          return Failure(message);
        case Visit(e) =>
          fileMap := VisitEntry(s, fileMap, e, matcher, digest);
        FirstErrorAppend(before + walk[..j], [walk[j]]);
        assert [walk[j]][1..] == [];
        j := j + 1;
      }
      assert walk[..j] == walk;
      assert roots[..i + 1][..i] == roots[..i];
      i := i + 1;
    }
    assert roots[..i] == roots;
    var result := Finalise(fileMap);
    r := Success(result);
  }

  /**
   * The walk callback for one entry and the hashing goroutine it starts: skip what is not
   * a regular file, is smaller than `minSize` or has an excluded base name; hash the rest
   * and append its path under its digest unless hashing fails.
   */
  method VisitEntry(s: Scanner, fileMap: FileMap, e: Entry, matcher: Matcher, digest: Digest) returns (fileMap': FileMap)
    ensures FiledUnder(s, Visit(e), matcher, digest).None? ==> fileMap' == fileMap
    ensures FiledUnder(s, Visit(e), matcher, digest).Some? ==>
      fileMap' == Record(fileMap, FiledUnder(s, Visit(e), matcher, digest).value, RecordOf(e))
  {
    fileMap' := fileMap;
    if !e.regular || e.size < s.minSize {
      return;
    }
    var excluded := IsExcluded(s.excludePatterns, Base(e.path), matcher);
    if excluded {
      return;
    }
    match e.content
    case None =>
    case Some(c) =>
      var h := digest(GetHasher(s), c);
      fileMap' := Record(fileMap, h, FileRecord(e.path, e.size));
  }

  /**
   * The loop over the keys of the finished map (in Go's unspecified order): keep the lists
   * with more than one member, and add up the file count, the bytes and the bytes to free,
   * taking each list's size from its first file.
   */
  method Finalise(fileMap: FileMap) returns (result: ScanResult)
    requires forall h :: h in fileMap ==> fileMap[h] != []
    ensures result == Summary(fileMap)
  {
    var duplicateGroups: map<string, seq<string>> := map[];
    var totalFiles, totalSize, savedSize := 0, 0, 0;
    var pending := fileMap.Keys;
    while pending != {}
      invariant pending <= fileMap.Keys
      invariant duplicateGroups == map h | h in fileMap.Keys - pending && |fileMap[h]| > 1 :: Paths(fileMap[h])
      invariant totalFiles == SumOver(fileMap, fileMap.Keys - pending, FileCount)
      invariant totalSize == SumOver(fileMap, fileMap.Keys - pending, GroupBytes)
      invariant savedSize == SumOver(fileMap, fileMap.Keys - pending, SavedBytes)
      decreases pending
    {
      var h :| h in pending;
      var files := fileMap[h];
      if |files| > 1 {
        duplicateGroups := duplicateGroups[h := Paths(files)];
        savedSize := savedSize + files[0].size * (|files| - 1);
      }
      totalFiles := totalFiles + |files|;
      totalSize := totalSize + files[0].size * |files|;
      ghost var done := fileMap.Keys - pending;
      assert (done + {h}) - {h} == done;
      SumOverRemove(fileMap, done + {h}, FileCount, h);
      SumOverRemove(fileMap, done + {h}, GroupBytes, h);
      SumOverRemove(fileMap, done + {h}, SavedBytes, h);
      pending := pending - {h};
      assert fileMap.Keys - pending == done + {h};
    }
    assert fileMap.Keys - pending == fileMap.Keys;
    result := ScanResult(duplicateGroups, totalFiles, totalSize, savedSize);
  }

  // ---------------------------------------------------------------------------
  // What callers do with a result
  // ---------------------------------------------------------------------------

  /** The copies a caller relocates: every member of a group after the first, which is kept. */
  function RelocationCandidates(group: seq<string>): (r: seq<string>)
    ensures group != [] ==> [group[0]] + r == group
    ensures group == [] ==> r == []
  {
    if group == [] then [] else group[1..]
  }

  /**
   * In every reported group one copy is kept and at least one is a candidate; the
   * candidates are the paths of the group's later records.
   */
  lemma DuplicateGroupsHaveCandidates(m: FileMap, h: string)
    requires h in Summary(m).duplicateGroups
    ensures h in m && |m[h]| > 1
    ensures var c := RelocationCandidates(Summary(m).duplicateGroups[h]);
      |c| == |m[h]| - 1 >= 1 && forall i :: 0 <= i < |c| ==> c[i] == m[h][i + 1].path
  {
  }

  // ---------------------------------------------------------------------------
  // MoveToTrash in this package: the command chosen by the operating system name
  // ---------------------------------------------------------------------------

  datatype TrashCommand = Osascript | PowerShell | Gio | Unsupported(goos: string)

  function TrashCommandFor(goos: string): (c: TrashCommand)
    ensures c == Osascript <==> HasPrefix(goos, "darwin")
    ensures c == PowerShell <==> goos == "windows"
    ensures c == Gio <==> goos == "linux"
    ensures c.Unsupported? ==> c.goos == goos
  {
    assert "windows"[0] != 'd' && "linux"[0] != 'd';
    if HasPrefix(goos, "darwin") then Osascript
    else if goos == "windows" then PowerShell
    else if goos == "linux" then Gio
    else Unsupported(goos)
  }
}

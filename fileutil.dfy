// Model of internal/utils/fileutil/fileutil.go: the dispatch of MoveToTrash on the
// operating system, the collision loop that picks a free name in the Linux trash
// directory, the MIME category switch of GetFileType, and the second copies of the
// size formatting and parsing loops.

module FileUtil {
  import opened Wrappers
  import opened Machine
  import opened Text
  import Utils
  import Core

  // ---------------------------------------------------------------------------
  // MoveToTrash: the switch on runtime.GOOS
  // ---------------------------------------------------------------------------

  /** The three ways a file is sent to the trash. */
  datatype TrashRoute =
    | FinderScript       // osascript asks Finder to delete the POSIX file
    | RecycleBinScript   // PowerShell sends the file to the recycle bin
    | HomeTrashDir       // rename into ~/.local/share/Trash/files

  /** `darwin` and `windows` have their own scripts; every other name takes the Linux route. */
  function TrashRouteFor(goos: string): (r: TrashRoute)
    ensures r == FinderScript <==> goos == "darwin"
    ensures r == RecycleBinScript <==> goos == "windows"
    ensures r == HomeTrashDir <==> goos != "darwin" && goos != "windows"
  {
    if goos == "darwin" then FinderScript
    else if goos == "windows" then RecycleBinScript
    else HomeTrashDir
  }

  /**
   * The scanner's own trash dispatch agrees on Windows, and on the exact name "darwin";
   * its `gio` route is taken only where this one takes the home trash directory.
   */
  lemma RoutesAgainstScanner(goos: string)
    ensures TrashRouteFor(goos) == RecycleBinScript <==> Core.TrashCommandFor(goos) == Core.PowerShell
    ensures TrashRouteFor(goos) == FinderScript ==> Core.TrashCommandFor(goos) == Core.Osascript
    ensures Core.TrashCommandFor(goos) == Core.Gio ==> TrashRouteFor(goos) == HomeTrashDir
  {
    assert HasPrefix("darwin", "darwin");
  }

  /**
   * The two dispatches disagree on every other system: "freebsd", "android" and "ios"
   * are sent to the home trash directory here and are unsupported by the scanner.
   */
  lemma RoutesDiffer()
    ensures TrashRouteFor("freebsd") == HomeTrashDir && Core.TrashCommandFor("freebsd") == Core.Unsupported("freebsd")
    ensures TrashRouteFor("android") == HomeTrashDir && Core.TrashCommandFor("android") == Core.Unsupported("android")
    ensures TrashRouteFor("ios") == HomeTrashDir && Core.TrashCommandFor("ios") == Core.Unsupported("ios")
  {
    assert "freebsd"[0] != 'd';
    assert "android"[0] != 'd';
  }

  // ---------------------------------------------------------------------------
  // moveToTrashLinux: the free name in the trash directory
  // ---------------------------------------------------------------------------

  /** `fileName[:len(fileName)-len(ext)]`: the name without its extension. */
  function Stem(name: string): (s: string)
    ensures s + Ext(name) == name
  {
    name[..|name| - |Ext(name)|]
  }

  /** The name tried after `i` collisions: the name itself, then `stem_i.ext`. */
  function Candidate(name: string, i: nat): string {
    if i == 0 then name else Stem(name) + "_" + Decimal(i) + Ext(name)
  }

  /** Candidate `n` is the first one not taken. */
  predicate FirstFree(name: string, existing: set<string>, n: nat) {
    Candidate(name, n) !in existing && forall j :: 0 <= j < n ==> Candidate(name, j) in existing
  }

  /** The first `n` candidates. */
  ghost function Candidates(name: string, n: nat): set<string> {
    if n == 0 then {} else Candidates(name, n - 1) + {Candidate(name, n - 1)}
  }

  /**
   * The `for i := 1; ; i++` loop: while the current name exists, try the next one. The loop
   * ends because the candidates are pairwise different and only finitely many names exist.
   */
  method UniqueTrashName(name: string, existing: set<string>) returns (n: nat, trashName: string)
    ensures trashName == Candidate(name, n)
    ensures FirstFree(name, existing, n)
  {
    n, trashName := 0, name;
    while trashName in existing
      invariant trashName == Candidate(name, n)
      invariant forall j :: 0 <= j < n ==> Candidate(name, j) in existing
      invariant Candidates(name, n) <= existing
      decreases |existing| - n
    {
      CandidatesCount(name, n + 1);
      SubsetCard(Candidates(name, n + 1), existing);
      n := n + 1;
      trashName := Stem(name) + "_" + Decimal(n) + Ext(name);
    }
  }

  lemma SubsetCard<T>(a: set<T>, b: set<T>)
    requires a <= b
    ensures |a| <= |b|
  {
    assert b == a + (b - a);
  }

  /** The first `n` candidates are `n` different names. */
  lemma {:induction false} CandidatesCount(name: string, n: nat)
    ensures |Candidates(name, n)| == n
  {
    if n > 0 {
      CandidatesCount(name, n - 1);
      if Candidate(name, n - 1) in Candidates(name, n - 1) {
        var j := CandidateBefore(name, n - 1, Candidate(name, n - 1));
        CandidateInjective(name, j, n - 1);
      }
    }
  }

  /** Every member of `Candidates(name, n)` is a candidate with a smaller index. */
  lemma {:induction false} CandidateBefore(name: string, n: nat, x: string) returns (j: nat)
    requires x in Candidates(name, n)
    ensures j < n && x == Candidate(name, j)
  {
    if x == Candidate(name, n - 1) {
      j := n - 1;
    } else {
      j := CandidateBefore(name, n - 1, x);
    }
  }

  /** Different collision counts give different names. */
  lemma CandidateInjective(name: string, i: nat, j: nat)
    requires Candidate(name, i) == Candidate(name, j)
    ensures i == j
  {
    if i != 0 && j != 0 {
      var s, e := Stem(name), Ext(name);
      var ci, cj := Candidate(name, i), Candidate(name, j);
      assert |Decimal(i)| == |Decimal(j)|;
      assert ci[|s| + 1..|ci| - |e|] == Decimal(i);
      assert cj[|s| + 1..|cj| - |e|] == Decimal(j);
      DecimalInjective(i, j);
    }
  }

  /** Two first-free indices are the same: the loop's answer is determined by its inputs. */
  lemma FirstFreeUnique(name: string, existing: set<string>, m: nat, n: nat)
    requires FirstFree(name, existing, m) && FirstFree(name, existing, n)
    ensures m == n
  {
  }

  /**
   * The number is added once to the original stem: candidate `i` is the stem, `_` and the
   * digits of `i`, and it is longer than the name by exactly those characters.
   */
  lemma CandidateShape(name: string, i: nat)
    requires i > 0
    ensures HasPrefix(Candidate(name, i), Stem(name) + "_" + Decimal(i))
    ensures |Candidate(name, i)| == |name| + 1 + |Decimal(i)|
  {
    var head := Stem(name) + "_" + Decimal(i);
    assert Candidate(name, i) == head + Ext(name);
    assert (head + Ext(name))[..|head|] == head;
  }

  /** Only the first attempt uses the name itself; every later one renames the file. */
  lemma CandidateRenames(name: string, i: nat)
    ensures Candidate(name, i) == name <==> i == 0
  {
    if i > 0 {
      CandidateShape(name, i);
    }
  }

  /** Every candidate keeps the extension of the original name. */
  lemma CandidateKeepsExtension(name: string, i: nat)
    ensures Ext(Candidate(name, i)) == Ext(name)
  {
    if i > 0 {
      var head, e := Stem(name) + "_" + Decimal(i), Ext(name);
      assert Candidate(name, i) == head + e;
      if e != [] {
        ExtOfSuffix(head, e);
      } else {
        NoDotAfterName(name, i);
        assert head + e == head;
      }
    }
  }

  /** Without an extension the stem is the name, and `_` and digits add no `.`. */
  lemma NoDotAfterName(name: string, i: nat)
    requires Ext(name) == []
    ensures Ext(Stem(name) + "_" + Decimal(i)) == []
  {
    assert Stem(name) == name;
    var tail := "_" + Decimal(i);
    assert '.' !in tail by {
      assert forall k :: 0 <= k < |Decimal(i)| ==> IsDigit(Decimal(i)[k]);
    }
    NoDotAppend(name, tail);
    assert Stem(name) + "_" + Decimal(i) == name + tail;
  }

  /** With `a.txt` and `a_1.txt` taken the free name is `a_2.txt` (not `a_1_2.txt`). */
  lemma TrashNameExample(n: nat)
    requires FirstFree("a.txt", {"a.txt", "a_1.txt"}, n)
    ensures n == 2 && Candidate("a.txt", n) == "a_2.txt"
  {
    ExampleFirstFree();
    FirstFreeUnique("a.txt", {"a.txt", "a_1.txt"}, n, 2);
    ExampleCandidates();
  }

  lemma ExampleFirstFree()
    ensures FirstFree("a.txt", {"a.txt", "a_1.txt"}, 2)
  {
    ExampleCandidates();
    assert |"a_2.txt"| != |"a.txt"| && "a_2.txt"[2] != "a_1.txt"[2];
    FirstFreeAtTwo("a.txt", {"a.txt", "a_1.txt"});
  }

  /** The first two candidates taken and the third free: the third is the first free one. */
  lemma FirstFreeAtTwo(name: string, existing: set<string>)
    requires Candidate(name, 0) in existing && Candidate(name, 1) in existing
    requires Candidate(name, 2) !in existing
    ensures FirstFree(name, existing, 2)
  {
    forall j | 0 <= j < 2
      ensures Candidate(name, j) in existing
    {
      assert j == 0 || j == 1;
    }
  }

  /** The first three names tried for `a.txt`. */
  lemma ExampleCandidates()
    ensures Candidate("a.txt", 0) == "a.txt"
    ensures Candidate("a.txt", 1) == "a_1.txt"
    ensures Candidate("a.txt", 2) == "a_2.txt"
  {
    ExampleParts();
    assert Decimal(1) == "1" && Decimal(2) == "2";
    assert "a" + "_" + "1" + ".txt" == "a_1.txt";
    assert "a" + "_" + "2" + ".txt" == "a_2.txt";
  }

  /** `a.txt` splits into the stem `a` and the extension `.txt`. */
  lemma ExampleParts()
    ensures Ext("a.txt") == ".txt" && Stem("a.txt") == "a"
  {
    ExtOfSuffix("a", ".txt");
    assert "a" + ".txt" == "a.txt";
  }

  // ---------------------------------------------------------------------------
  // What os.Stat may answer, and the loop that reads only "not exist" as free
  // ---------------------------------------------------------------------------

  /**
   * A trash directory as `os.Stat` sees it: `statError(p)` is an error other than "not
   * exist" (ENAMETOOLONG for a too long name, EACCES for an unsearchable directory), and
   * otherwise a name exists exactly when it is in `present`.
   */
  predicate StatTaken(present: set<string>, statError: string -> Option<string>, p: string) {
    statError(p).Some? || p in present
  }

  /** The source's loop stops at candidate `n` only if `os.IsNotExist` holds for it. */
  predicate StopsAt(name: string, present: set<string>, statError: string -> Option<string>, n: nat) {
    !StatTaken(present, statError, Candidate(name, n)) &&
    forall j :: 0 <= j < n ==> StatTaken(present, statError, Candidate(name, j))
  }

  /** A base name the file system allows: at most 255 bytes. */
  const NameMax: nat := 255

  /**
   * Trashing a file whose base name is 254 bytes or longer, while that name is already in
   * the trash: every renamed candidate is longer than 255 bytes, `os.Stat` fails for it
   * with an error that is not "not exist", and the source's loop stops at no candidate.
   */
  lemma LongNameNeverStops(name: string, present: set<string>, statError: string -> Option<string>, n: nat)
    requires |name| >= NameMax - 1 && name in present
    requires forall p :: |p| > NameMax ==> statError(p).Some?
    ensures !StopsAt(name, present, statError, n)
  {
    if n > 0 {
      CandidateShape(name, n);
      assert |Candidate(name, n)| > NameMax;
    }
  }

  /** The first `n` candidates are taken and `os.Stat` reports none of them as an error. */
  predicate TakenCleanly(name: string, present: set<string>, statError: string -> Option<string>, n: nat) {
    forall j :: 0 <= j < n ==> Candidate(name, j) in present && statError(Candidate(name, j)).None?
  }

  /**
   * The loop as evidently intended: a `Stat` error other than "not exist" is returned
   * instead of being read as a taken name. It always ends, and it agrees with the source's
   * loop whenever `Stat` reports no such error.
   */
  method UniqueTrashNameChecked(name: string, present: set<string>, statError: string -> Option<string>)
    returns (n: nat, r: Result<string, string>)
    ensures r.Success? ==> r.value == Candidate(name, n) && FirstFree(name, present, n) &&
                           statError(r.value).None? && TakenCleanly(name, present, statError, n)
    ensures r.Failure? ==> statError(Candidate(name, n)) == Some(r.error) && TakenCleanly(name, present, statError, n)
    ensures (forall p :: statError(p).None?) ==> r.Success?
    ensures |name| >= NameMax - 1 && name in present && (forall p :: |p| > NameMax ==> statError(p).Some?) ==> r.Failure?
  {
    n := 0;
    var trashName := name;
    while true
      invariant trashName == Candidate(name, n)
      invariant TakenCleanly(name, present, statError, n)
      invariant Candidates(name, n) <= present
      decreases |present| - n
    {
      if statError(trashName).Some? {
        r := Failure(statError(trashName).value);
        return;
      }
      if trashName !in present {
        r := Success(trashName);
        if n > 0 {
          CandidateShape(name, n);
        }
        return;
      }
      CandidatesCount(name, n + 1);
      SubsetCard(Candidates(name, n + 1), present);
      n := n + 1;
      trashName := Stem(name) + "_" + Decimal(n) + Ext(name);
    }
  }

  /** `filepath.Join(homeDir, ".local/share/Trash/files")`. */
  function TrashDir(home: string): string {
    home + "/.local/share/Trash/files"
  }

  /**
   * `moveToTrashLinux`: the home directory and `MkdirAll` may fail, then the first free name
   * is chosen and the file is renamed to it. `existing` holds the names in the trash
   * directory for which `os.Stat` does not report "not exist"; the result carries the
   * destination path on success.
   */
  method MoveToTrashLinux(path: string, home: Result<string, string>, mkdirError: Option<string>,
                          existing: set<string>, renameError: Option<string>) returns (r: Result<string, string>)
    ensures home.Failure? ==> r == Failure(home.error)
    ensures home.Success? && mkdirError.Some? ==> r == Failure(mkdirError.value)
    ensures home.Success? && mkdirError.None? && renameError.Some? ==> r == Failure(renameError.value)
    ensures home.Success? && mkdirError.None? && renameError.None? ==>
      exists n :: FirstFree(Base(path), existing, n) && r == Success(TrashDir(home.value) + "/" + Candidate(Base(path), n))
  {
    if home.Failure? {
      return Failure(home.error);
    }
    var trashDir := TrashDir(home.value);
    if mkdirError.Some? {
      return Failure(mkdirError.value);
    }
    var n, fileName := UniqueTrashName(Base(path), existing);
    if renameError.Some? {
      return Failure(renameError.value);
    }
    return Success(trashDir + "/" + fileName);
  }

  // ---------------------------------------------------------------------------
  // GetFileType
  // ---------------------------------------------------------------------------

  /** The 512-byte buffer handed to `http.DetectContentType`: the first bytes read, then zeros. */
  function SniffBuffer(content: seq<byte>): (b: seq<byte>)
    ensures |b| == 512
    ensures forall i :: 0 <= i < 512 ==> b[i] == if i < |content| then content[i] else 0
  {
    if |content| >= 512 then content[..512] else content + seq(512 - |content|, _ => 0)
  }

  /**
   * A file shorter than 512 bytes reaches `detect` followed by zero bytes, so a detector
   * that reads a zero byte as binary data files even a short text file under "other".
   */
  lemma ShortFileSniffedAsBinary(content: seq<byte>, detect: seq<byte> -> string)
    requires 0 < |content| < 512
    requires forall b :: 0 in b ==> detect(b) == "application/octet-stream"
    ensures GetFileType(Success(content), detect) == Success("other")
  {
    var b := SniffBuffer(content);
    assert b[511] == 0;
    OctetStreamIsOther();
  }

  /** The generic binary type matches none of the switch's cases. */
  lemma OctetStreamIsOther()
    ensures MimeCategory("application/octet-stream") == "other"
  {
    var m := "application/octet-stream";
    assert m[..6][0] != "image/"[0] && m[..6][0] != "video/"[0] && m[..6][1] != "audio/"[1];
    assert m[..5][0] != "text/"[0];
    assert m[..15][12] != "application/pdf"[12] && m[..15][12] != "application/zip"[12];
    assert m[..17][12] != "application/x-rar"[12] && m[..16][12] != "application/x-7z"[12];
  }

  /** The category switch on the sniffed MIME type; the first matching case wins. */
  function MimeCategory(mime: string): (c: string)
    ensures c in {"image", "video", "audio", "text", "pdf", "archive", "other"}
  {
    if HasPrefix(mime, "image/") then "image"
    else if HasPrefix(mime, "video/") then "video"
    else if HasPrefix(mime, "audio/") then "audio"
    else if HasPrefix(mime, "text/") then "text"
    else if HasPrefix(mime, "application/pdf") then "pdf"
    else if HasPrefix(mime, "application/zip") || HasPrefix(mime, "application/x-rar")
      || HasPrefix(mime, "application/x-7z") then "archive"
    else "other"
  }

  /** The switch as a table of prefixes and categories, in the order of its cases. */
  const MimeTable: seq<(string, string)> := [
    ("image/", "image"), ("video/", "video"), ("audio/", "audio"), ("text/", "text"),
    ("application/pdf", "pdf"), ("application/zip", "archive"),
    ("application/x-rar", "archive"), ("application/x-7z", "archive")]

  /** Reference definition: the category of the first entry from `k` on whose prefix `mime` has. */
  function TableCategory(mime: string, k: nat): (c: string)
    ensures c == "other" <==> forall j :: k <= j < |MimeTable| ==> !HasPrefix(mime, MimeTable[j].0)
    ensures c != "other" ==>
      exists j :: (k <= j < |MimeTable| && HasPrefix(mime, MimeTable[j].0)
        && c == MimeTable[j].1 && forall i :: k <= i < j ==> !HasPrefix(mime, MimeTable[i].0))
    decreases |MimeTable| - k
  {
    if k >= |MimeTable| then "other"
    else if HasPrefix(mime, MimeTable[k].0) then MimeTable[k].1
    else TableCategory(mime, k + 1)
  }

  /** The switch is the table lookup. */
  lemma MimeCategoryIsTable(mime: string)
    ensures MimeCategory(mime) == TableCategory(mime, 0)
  {
    assert TableCategory(mime, 8) == "other";
    assert TableCategory(mime, 7) == if HasPrefix(mime, "application/x-7z") then "archive" else "other";
    assert TableCategory(mime, 6) == if HasPrefix(mime, "application/x-rar") then "archive" else TableCategory(mime, 7);
    assert TableCategory(mime, 5) == if HasPrefix(mime, "application/zip") then "archive" else TableCategory(mime, 6);
    assert TableCategory(mime, 4) == if HasPrefix(mime, "application/pdf") then "pdf" else TableCategory(mime, 5);
    assert TableCategory(mime, 3) == if HasPrefix(mime, "text/") then "text" else TableCategory(mime, 4);
    assert TableCategory(mime, 2) == if HasPrefix(mime, "audio/") then "audio" else TableCategory(mime, 3);
    assert TableCategory(mime, 1) == if HasPrefix(mime, "video/") then "video" else TableCategory(mime, 2);
    assert TableCategory(mime, 0) == if HasPrefix(mime, "image/") then "image" else TableCategory(mime, 1);
  }

  /**
   * `GetFileType`: an open error is passed on; an empty file makes the first `Read` return
   * `io.EOF`; otherwise the zero-padded buffer is sniffed by `detect` and classified.
   */
  function GetFileType(file: Result<seq<byte>, string>, detect: seq<byte> -> string): (r: Result<string, string>)
    ensures file.Failure? ==> r == Failure(file.error)
    ensures file.Success? && file.value == [] ==> r == Failure("EOF")
    ensures file.Success? && file.value != [] ==> r.Success? && r.value == TableCategory(detect(SniffBuffer(file.value)), 0)
  {
    match file
    case Failure(e) => Failure(e)
    case Success(content) =>
      if content == [] then Failure("EOF")
      else
        var mime := detect(SniffBuffer(content));
        MimeCategoryIsTable(mime);
        Success(MimeCategory(mime))
  }

  // ---------------------------------------------------------------------------
  // FormatFileSize and ParseFileSize: the second copies of the size.go loops
  // ---------------------------------------------------------------------------

  /** `FormatFileSize`: the same unit selection as `FormatSize`. */
  method FormatFileSize(size: int64) returns (r: Utils.HumanSize)
    ensures r == Utils.Humanize(size)
  {
    if size < 1024 {
      return Utils.InBytes(size as int);
    }
    var div: int64 := 1024;
    var exp: nat := 0;
    var n: int64 := size / 1024;
    while n >= 1024
      invariant div as int == Utils.Pow1024(exp + 1) && div <= size
      invariant n as int == size as int / div as int
      decreases n
    {
      Utils.LoopStep(size as int, div as int, n as int);
      div := div * 1024;
      exp := exp + 1;
      n := n / 1024;
    }
    Utils.LoopExit(size as int, div as int, n as int);
    Utils.UnitExponentUnique(size as int, exp);
    Utils.UnitExponentInRange(size);
    r := Utils.InUnit(size as int, div as int, Utils.UnitLetters[exp]);
  }

  /**
   * `ParseFileSize`: the same normalisation, shortcut, table and errors as `ParseSize`, with
   * the `range` loop and its early returns written inline.
   */
  method ParseFileSize(sizeStr: string, order: seq<Utils.Unit>, parseFloat: string -> Option<real>)
    returns (r: Result<int, Utils.SizeError>)
    ensures r == Utils.ParseSizeSpec(sizeStr, order, parseFloat)
  {
    var t := Utils.Normalize(sizeStr);
    if t == "" || t == "0" {
      return Success(0);
    }
    r := UnitLoop(t, order, parseFloat);
  }

  /** The `range` loop of `ParseFileSize` with its early returns, and the fallback after it. */
  method UnitLoop(t: string, order: seq<Utils.Unit>, parseFloat: string -> Option<real>)
    returns (r: Result<int, Utils.SizeError>)
    requires t != "" && t != "0"
    ensures r == Utils.ParseNormalised(t, order, parseFloat)
  {
    for i := 0 to |order|
      invariant forall k :: 0 <= k < i ==> !Utils.EndsWith(t, order[k])
    {
      if HasSuffix(t, order[i].suffix) {
        Utils.FirstSuffixMatchIsFirst(t, order, i);
        r := Utils.ReadScaled(t, order[i], parseFloat);
        Utils.ScaledReading(t, order[i], parseFloat, r);
        return;
      }
    }
    r := Utils.ReadPlain(t, parseFloat);
    Utils.PlainReading(t, parseFloat, r);
  }
}

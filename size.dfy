/**
 * Size strings (internal/utils/size.go): `ParseSize` turns a string such as "10MB" into a
 * byte count, and `FormatSize` picks the unit a byte count is shown in.
 *
 * Two things the code leaves to the Go runtime are parameters here:
 *   - `order`, the order in which `range` visits the five entries of the suffix map
 *     (the language leaves it unspecified and varies it from run to run);
 *   - `parseFloat`, `strconv.ParseFloat` seen as a partial map from strings to reals
 *     (`None` is a syntax error).
 */
module Utils {
  import opened Wrappers
  import opened Machine
  import opened Text

  // ---------------------------------------------------------------------------
  // The suffix table
  // ---------------------------------------------------------------------------

  /** One entry of the `units` map: the key and the number of bytes it stands for. */
  datatype Unit = Unit(suffix: string, multiplier: nat)

  const B := Unit("B", 1)
  const KB := Unit("KB", 1024)
  const MB := Unit("MB", 1024 * 1024)
  const GB := Unit("GB", 1024 * 1024 * 1024)
  const TB := Unit("TB", 1024 * 1024 * 1024 * 1024)

  /** The map's entries, in the order they are written. */
  const Units: seq<Unit> := [B, KB, MB, GB, TB]

  /** An order a `range` over the map may take: every entry of the table exactly once. */
  predicate IsMapOrder(order: seq<Unit>) {
    (forall k :: 0 <= k < |order| ==> order[k] in Units)
    && (forall u :: u in Units ==> u in order)
    && (forall i, j :: 0 <= i < j < |order| ==> order[i] != order[j])
  }

  /** The error `ParseSize` returns; it carries the normalised input. */
  datatype SizeError = InvalidSize(text: string)

  /** The input after `strings.TrimSpace(strings.ToUpper(size))`. */
  function Normalize(size: string): string {
    TrimSpace(ToUpper(size))
  }

  /** The normalised text neither starts nor ends with white space and has no lower-case letter. */
  lemma NormalizeShape(size: string)
    ensures var t := Normalize(size); t == [] || (!IsSpace(t[0]) && !IsSpace(t[|t| - 1]))
    ensures forall i :: 0 <= i < |Normalize(size)| ==> !('a' <= Normalize(size)[i] <= 'z')
  {
    var u := ToUpper(size);
    var a := TrimSpaceIsSlice(u);
    var t := TrimSpace(u);
    assert t == Normalize(size);
    forall i | 0 <= i < |t| ensures !('a' <= t[i] <= 'z') {
      assert t[i] == u[a + i];
    }
  }

  /** The conversion `int64(x)` of an in-range float: truncation toward zero. */
  function Truncate(x: real): (r: int)
    ensures x >= 0.0 ==> r as real <= x < r as real + 1.0
    ensures x < 0.0 ==> r as real - 1.0 < x <= r as real
  {
    if x >= 0.0 then x.Floor else -((-x).Floor)
  }

  /** The float product `value * float64(multiplier)`, taken as exact. */
  function Product(value: real, multiplier: nat): real {
    if multiplier == 0 then 0.0 else Product(value, multiplier - 1) + value
  }

  /** `Product` is multiplication (written as repeated addition so the solver unfolds it only on demand). */
  lemma {:induction false} ProductIsMultiplication(value: real, multiplier: nat)
    ensures Product(value, multiplier) == value * multiplier as real
  {
    if multiplier > 0 {
      ProductIsMultiplication(value, multiplier - 1);
      assert value * multiplier as real == value * (multiplier - 1) as real + value;
    }
  }

  /** `strings.HasSuffix(t, u)` for a key `u` of the map. */
  predicate EndsWith(t: string, u: Unit) {
    HasSuffix(t, u.suffix)
  }

  /** The position in `order` of the first entry whose suffix ends `t`. */
  function FirstSuffixMatch(t: string, order: seq<Unit>): (r: Option<nat>)
    ensures r.Some? ==> r.value < |order| && EndsWith(t, order[r.value])
    ensures r.Some? ==> forall k :: 0 <= k < r.value ==> !EndsWith(t, order[k])
    ensures r.None? <==> forall k :: 0 <= k < |order| ==> !EndsWith(t, order[k])
  {
    if order == [] then None
    else if EndsWith(t, order[0]) then Some(0)
    else
      var r := FirstSuffixMatch(t, order[1..]);
      assert forall k :: 1 <= k < |order| ==> order[k] == order[1..][k - 1];
      match r
      case None => None
      case Some(i) => Some(i + 1)
  }

  /** The entry the search loop returns on, if any. */
  function FirstUnit(t: string, order: seq<Unit>): Option<Unit> {
    match FirstSuffixMatch(t, order)
    case None => None
    case Some(i) => Some(order[i])
  }

  /** The number in front of `u`'s suffix, multiplied out, or the error for `t`. */
  function Scaled(t: string, u: Unit, parseFloat: string -> Option<real>): Result<int, SizeError> {
    match parseFloat(TrimSuffix(t, u.suffix))
    case None => Failure(InvalidSize(t))
    case Some(v) => Success(Truncate(Product(v, u.multiplier)))
  }

  /** `t` read as a plain byte count. */
  function PlainBytes(t: string, parseFloat: string -> Option<real>): Result<int, SizeError> {
    match parseFloat(t)
    case None => Failure(InvalidSize(t))
    case Some(v) => Success(Truncate(v))
  }

  /** What `ParseSize` returns when the map is visited in `order`. */
  function ParseSizeSpec(size: string, order: seq<Unit>, parseFloat: string -> Option<real>): Result<int, SizeError> {
    ParseNormalised(Normalize(size), order, parseFloat)
  }

  /** The shortcut and the search, applied to the normalised text `t`. */
  function ParseNormalised(t: string, order: seq<Unit>, parseFloat: string -> Option<real>): Result<int, SizeError> {
    if t == "" || t == "0" then Success(0)
    else
      match FirstUnit(t, order)
      case Some(u) => Scaled(t, u, parseFloat)
      case None => PlainBytes(t, parseFloat)
  }

  // ---------------------------------------------------------------------------
  // ParseSize
  // ---------------------------------------------------------------------------

  /** The code as written: the normalisation, the shortcut, then the search over the map. */
  method ParseSize(size: string, order: seq<Unit>, parseFloat: string -> Option<real>) returns (r: Result<int, SizeError>)
    ensures Normalize(size) == "" || Normalize(size) == "0" ==> r == Success(0)
    ensures r == ParseSizeSpec(size, order, parseFloat)
  {
    var t := Normalize(size);
    if t == "" || t == "0" {
      return Success(0);
    }
    var found := FindSuffix(t, order);
    match found {
      case Some(i) =>
        SpecWithUnit(size, order, order[i], parseFloat);
        r := ReadScaled(t, order[i], parseFloat);
        ScaledReading(t, order[i], parseFloat, r);
      case None =>
        SpecWithoutUnit(size, order, parseFloat);
        r := ReadPlain(t, parseFloat);
        PlainReading(t, parseFloat, r);
    }
  }

  /**
   * The body of the `if strings.HasSuffix` branch: the text in front of the suffix is
   * parsed; the call fails with the whole text when it is not a number, and otherwise
   * gives that number times the multiplier, truncated toward zero.
   */
  method ReadScaled(t: string, u: Unit, parseFloat: string -> Option<real>) returns (r: Result<int, SizeError>)
    requires EndsWith(t, u)
    ensures r.Failure? <==> parseFloat(t[..|t| - |u.suffix|]).None?
    ensures r.Failure? ==> r.error == InvalidSize(t)
    ensures r.Success? ==> r.value == Truncate(Product(parseFloat(t[..|t| - |u.suffix|]).value, u.multiplier))
  {
    var numberStr := TrimSuffix(t, u.suffix);
    var value := parseFloat(numberStr);
    if value.None? {
      return Failure(InvalidSize(t));
    }
    return Success(Truncate(Product(value.value, u.multiplier)));
  }

  /**
   * The code after the loop: the whole text is a plain byte count, rounded toward zero,
   * or the call fails with the text.
   */
  method ReadPlain(t: string, parseFloat: string -> Option<real>) returns (r: Result<int, SizeError>)
    ensures r.Failure? <==> parseFloat(t).None?
    ensures r.Failure? ==> r.error == InvalidSize(t)
    ensures r.Success? && parseFloat(t).value >= 0.0 ==>
      r.value as real <= parseFloat(t).value < r.value as real + 1.0
    ensures r.Success? && parseFloat(t).value < 0.0 ==>
      r.value as real - 1.0 < parseFloat(t).value <= r.value as real
  {
    var value := parseFloat(t);
    if value.None? {
      return Failure(InvalidSize(t));
    }
    return Success(Truncate(value.value));
  }

  /** A result that fails exactly when the number in front of the unit does not parse, and otherwise scales it, is `Scaled`. */
  lemma ScaledReading(t: string, u: Unit, parseFloat: string -> Option<real>, r: Result<int, SizeError>)
    requires EndsWith(t, u)
    requires r.Failure? <==> parseFloat(t[..|t| - |u.suffix|]).None?
    requires r.Failure? ==> r.error == InvalidSize(t)
    requires r.Success? ==> r.value == Truncate(Product(parseFloat(t[..|t| - |u.suffix|]).value, u.multiplier))
    ensures r == Scaled(t, u, parseFloat)
  {
    var n := t[..|t| - |u.suffix|];
    assert TrimSuffix(t, u.suffix) == n;
    match parseFloat(n)
    case None =>
    case Some(v) =>
  }

  /** A result that fails exactly as `PlainBytes` does and rounds the same number toward zero is `PlainBytes`. */
  lemma PlainReading(t: string, parseFloat: string -> Option<real>, r: Result<int, SizeError>)
    requires r.Failure? <==> parseFloat(t).None?
    requires r.Failure? ==> r.error == InvalidSize(t)
    requires r.Success? && parseFloat(t).value >= 0.0 ==>
      r.value as real <= parseFloat(t).value < r.value as real + 1.0
    requires r.Success? && parseFloat(t).value < 0.0 ==>
      r.value as real - 1.0 < parseFloat(t).value <= r.value as real
    ensures r == PlainBytes(t, parseFloat)
  {
    if r.Success? {
      TruncateUnique(parseFloat(t).value, r.value);
    }
  }

  /** Only one integer lies within one of `x` on `x`'s side of zero. */
  lemma TruncateUnique(x: real, n: int)
    requires x >= 0.0 ==> n as real <= x < n as real + 1.0
    requires x < 0.0 ==> n as real - 1.0 < x <= n as real
    ensures n == Truncate(x)
  {
  }

  /** The `range` loop over the map: the first entry, in `order`, whose key ends `t`. */
  method FindSuffix(t: string, order: seq<Unit>) returns (found: Option<nat>)
    ensures found == FirstSuffixMatch(t, order)
  {
    for i := 0 to |order|
      invariant forall k :: 0 <= k < i ==> !EndsWith(t, order[k])
    {
      if HasSuffix(t, order[i].suffix) {
        FirstSuffixMatchIsFirst(t, order, i);
        return Some(i);
      }
    }
    return None;
  }

  /** The first matching position is the one before which nothing matches. */
  lemma FirstSuffixMatchIsFirst(t: string, order: seq<Unit>, i: nat)
    requires i < |order| && EndsWith(t, order[i])
    requires forall k :: 0 <= k < i ==> !EndsWith(t, order[k])
    ensures FirstSuffixMatch(t, order) == Some(i)
  {
  }

  /** Upper- and lower-case letters and surrounding white space make no difference. */
  lemma ParseSizeIgnoresCaseAndPadding(pad1: string, a: string, pad2: string, b: string,
                                       order: seq<Unit>, parseFloat: string -> Option<real>)
    requires AllSpace(pad1) && AllSpace(pad2)
    requires ToUpper(a) == ToUpper(b)
    ensures ParseSizeSpec(pad1 + a + pad2, order, parseFloat) == ParseSizeSpec(b, order, parseFloat)
  {
    UpperDistributes(pad1 + a, pad2);
    UpperDistributes(pad1, a);
    UpperKeepsSpace(pad1);
    UpperKeepsSpace(pad2);
    TrimSpaceIgnoresPadding(pad1, ToUpper(a), pad2);
  }

  /** Every suffix in the table ends with 'B'. */
  lemma SuffixesEndWithB(u: Unit, t: string)
    requires u in Units && EndsWith(t, u)
    ensures t != [] && t[|t| - 1] == 'B'
  {
    assert t[|t| - 1] == t[|t| - |u.suffix|..][|u.suffix| - 1];
  }

  /** A string that does not end in 'B' is read as a plain byte count, whatever the order. */
  lemma NoUnitMeansBytes(size: string, order: seq<Unit>, parseFloat: string -> Option<real>)
    requires IsMapOrder(order)
    requires Normalize(size) != "" && Normalize(size) != "0"
    requires Normalize(size)[|Normalize(size)| - 1] != 'B'
    ensures ParseSizeSpec(size, order, parseFloat) == PlainBytes(Normalize(size), parseFloat)
  {
    NoSuffixNoMatch(Normalize(size), order);
  }

  /** No entry of a map order matches a string that does not end in 'B'. */
  lemma NoSuffixNoMatch(t: string, order: seq<Unit>)
    requires IsMapOrder(order)
    requires t == [] || t[|t| - 1] != 'B'
    ensures FirstSuffixMatch(t, order) == None
  {
    forall k | 0 <= k < |order|
      ensures !EndsWith(t, order[k])
    {
      if EndsWith(t, order[k]) {
        SuffixesEndWithB(order[k], t);
      }
    }
  }

  /**
   * A string that ends in 'B' always takes a unit of the table, whatever the order;
   * `SpecWithUnit` then says that the number in front of that unit's suffix decides the outcome.
   */
  lemma MatchEndingInB(t: string, order: seq<Unit>)
    requires IsMapOrder(order)
    requires t != [] && t[|t| - 1] == 'B'
    ensures FirstUnit(t, order).Some?
    ensures FirstUnit(t, order).value in Units && EndsWith(t, FirstUnit(t, order).value)
  {
    BAlwaysMatches(t, order);
    OrderEntry(order, FirstSuffixMatch(t, order).value);
  }

  /** Every entry of a map order is a key of the table. */
  lemma OrderEntry(order: seq<Unit>, i: nat)
    requires IsMapOrder(order) && i < |order|
    ensures order[i] in Units
  {
  }

  /** Some entry of every map order matches a string ending in 'B', namely "B" itself. */
  lemma BAlwaysMatches(t: string, order: seq<Unit>)
    requires IsMapOrder(order)
    requires t != [] && t[|t| - 1] == 'B'
    ensures FirstSuffixMatch(t, order).Some?
  {
    assert B in Units;
    assert B in order;
    var p :| 0 <= p < |order| && order[p] == B;
    EndsWithLastB(t);
    assert EndsWith(t, order[p]);
  }

  /** A string ending in 'B' ends with the key "B". */
  lemma EndsWithLastB(t: string)
    requires t != [] && t[|t| - 1] == 'B'
    ensures EndsWith(t, B)
  {
    assert t[|t| - 1..] == B.suffix;
  }

  /** When the search finds no unit, the text is read as a plain byte count. */
  lemma SpecWithoutUnit(size: string, order: seq<Unit>, parseFloat: string -> Option<real>)
    requires Normalize(size) != "" && Normalize(size) != "0"
    requires FirstUnit(Normalize(size), order) == None
    ensures ParseSizeSpec(size, order, parseFloat) == PlainBytes(Normalize(size), parseFloat)
  {
  }

  /** Once the search has found a unit, the outcome is that unit's scaling. */
  lemma SpecWithUnit(size: string, order: seq<Unit>, u: Unit, parseFloat: string -> Option<real>)
    requires Normalize(size) != "" && Normalize(size) != "0"
    requires FirstUnit(Normalize(size), order) == Some(u)
    ensures ParseSizeSpec(size, order, parseFloat) == Scaled(Normalize(size), u, parseFloat)
  {
  }

  // ---------------------------------------------------------------------------
  // The map order decides "10MB"
  // ---------------------------------------------------------------------------

  /** A visit that tries "B" first. */
  const BFirst: seq<Unit> := [B, KB, MB, GB, TB]

  /** A visit that tries "MB" first: the table's order, started at its third entry. */
  const MBFirst: seq<Unit> := [MB, GB, TB, B, KB]

  /**
   * Both are orders a `range` over the map may take, and both are rotations of the table
   * as written, the orders a range that starts at some entry and wraps around produces.
   */
  lemma SampleOrders()
    ensures IsMapOrder(BFirst) && IsMapOrder(MBFirst)
    ensures BFirst == Units && MBFirst == Units[2..] + Units[..2]
  {
    BFirstIsMapOrder();
    MBFirstIsMapOrder();
  }

  /** `BFirst` lists the table in the order it is written. */
  lemma BFirstIsMapOrder()
    ensures IsMapOrder(BFirst)
  {
    assert BFirst == Units;
  }

  /** `MBFirst` is a rotation of the table. */
  lemma MBFirstIsMapOrder()
    ensures IsMapOrder(MBFirst)
  {
    forall u | u in Units
      ensures u in MBFirst
    {
      assert u == MBFirst[3] || u == MBFirst[4] || u == MBFirst[0] || u == MBFirst[1] || u == MBFirst[2];
    }
    forall i, j | 0 <= i < j < |MBFirst|
      ensures MBFirst[i] != MBFirst[j]
    {
      assert MBFirst[i].multiplier != MBFirst[j].multiplier;
    }
  }

  /**
   * "10MB" is rejected when `range` happens to try "B" first (the number in front of it is
   * "10M"), and is 10 MiB when it tries "MB" first.
   */
  lemma SuffixOrderMatters(parseFloat: string -> Option<real>)
    requires parseFloat("10M") == None && parseFloat("10") == Some(10.0)
    ensures ParseSizeSpec("10MB", BFirst, parseFloat) == Failure(InvalidSize("10MB"))
    ensures ParseSizeSpec("10MB", MBFirst, parseFloat) == Success(10 * 1024 * 1024)
  {
    BFirstRejects(parseFloat);
    MBFirstAccepts(parseFloat);
  }

  /** Trying "B" first leaves "10M" in front of the suffix. */
  lemma BFirstRejects(parseFloat: string -> Option<real>)
    requires parseFloat("10M") == None
    ensures ParseSizeSpec("10MB", BFirst, parseFloat) == Failure(InvalidSize("10MB"))
  {
    TenMB();
    NormalizeUpperNumeral("10", MB);
    FirstEntryDecides("10MB", BFirst, parseFloat);
  }

  /** Trying "MB" first leaves "10", which is scaled by 1024 * 1024. */
  lemma MBFirstAccepts(parseFloat: string -> Option<real>)
    requires parseFloat("10") == Some(10.0)
    ensures ParseSizeSpec("10MB", MBFirst, parseFloat) == Success(10 * 1024 * 1024)
  {
    TenMB();
    NormalizeUpperNumeral("10", MB);
    FirstEntryDecides("10MB", MBFirst, parseFloat);
    TenMebibytes();
  }

  /** Ten times the "MB" multiplier, truncated, is 10 MiB. */
  lemma TenMebibytes()
    ensures Truncate(Product(10.0, MB.multiplier)) == 10 * 1024 * 1024
  {
    ProductIsMultiplication(10.0, MB.multiplier);
  }

  /** The literal facts about "10MB" the lemma above uses. */
  lemma TenMB()
    ensures "10" + MB.suffix == "10MB" && IsNumeral("10")
    ensures EndsWith("10MB", B) && TrimSuffix("10MB", B.suffix) == "10M"
    ensures EndsWith("10MB", MB) && TrimSuffix("10MB", MB.suffix) == "10"
  {
    assert "10M" + B.suffix == "10MB";
  }

  /** When the first entry tried matches a normalised string, it decides the outcome. */
  lemma FirstEntryDecides(t: string, order: seq<Unit>, parseFloat: string -> Option<real>)
    requires Normalize(t) == t && t != [] && t[|t| - 1] == 'B'
    requires order != [] && EndsWith(t, order[0])
    ensures ParseSizeSpec(t, order, parseFloat) == Scaled(t, order[0], parseFloat)
  {
    assert t != "0";
    assert FirstSuffixMatch(t, order) == Some(0);
    SpecWithUnit(t, order, order[0], parseFloat);
  }

  // ---------------------------------------------------------------------------
  // The corrected search: the two-letter suffixes before "B"
  // ---------------------------------------------------------------------------

  /** The order the table evidently means: every two-letter suffix before "B". */
  const LongestFirst: seq<Unit> := [KB, MB, GB, TB, B]

  /** The unit a normalised string names: its two-letter suffix if it has one, else "B". */
  function IntendedUnit(t: string): Option<Unit> {
    if HasSuffix(t, "KB") then Some(KB)
    else if HasSuffix(t, "MB") then Some(MB)
    else if HasSuffix(t, "GB") then Some(GB)
    else if HasSuffix(t, "TB") then Some(TB)
    else if HasSuffix(t, "B") then Some(B)
    else None
  }

  /** `ParseSize` with every two-letter suffix tried before "B". */
  function ParseSizeLongest(size: string, parseFloat: string -> Option<real>): Result<int, SizeError> {
    var t := Normalize(size);
    if t == "" || t == "0" then Success(0)
    else
      match IntendedUnit(t)
      case Some(u) => Scaled(t, u, parseFloat)
      case None => PlainBytes(t, parseFloat)
  }

  /** `s` holds nothing but digits and decimal points. */
  predicate IsNumeral(s: string) {
    forall i :: 0 <= i < |s| ==> IsDigit(s[i]) || s[i] == '.'
  }

  /** A numeral followed by a unit suffix is already in normal form. */
  lemma NormalizeUpperNumeral(n: string, u: Unit)
    requires IsNumeral(n) && u in Units
    ensures Normalize(n + u.suffix) == n + u.suffix
  {
    var t := n + u.suffix;
    UnitSuffixShape(u);
    forall i | 0 <= i < |t|
      ensures !('a' <= t[i] <= 'z')
    {
      if i >= |n| {
        assert t[i] == u.suffix[i - |n|];
      }
    }
    UpperKeepsUpper(t);
    assert t[|t| - 1] == u.suffix[|u.suffix| - 1];
    assert t[0] == (if n == [] then u.suffix[0] else n[0]);
    TrimSpaceKeepsTrimmed(t);
  }

  /** Every key is a run of capital letters ending in 'B'. */
  lemma UnitSuffixShape(u: Unit)
    requires u in Units
    ensures u.suffix != [] && u.suffix[|u.suffix| - 1] == 'B'
    ensures forall i :: 0 <= i < |u.suffix| ==> 'A' <= u.suffix[i] <= 'Z'
  {
  }

  /** Two different two-letter suffixes cannot both end a string. */
  lemma TwoLetterSuffixesExclusive(t: string, u: Unit, w: Unit)
    requires u in Units && w in Units && u != B && w != B
    requires EndsWith(t, u) && EndsWith(t, w)
    ensures u == w
  {
    assert t[|t| - 2] == t[|t| - |u.suffix|..][0] == u.suffix[0];
    assert t[|t| - 2] == t[|t| - |w.suffix|..][0] == w.suffix[0];
  }

  /** Any order that tries "B" last finds the intended unit. */
  lemma BLastFindsIntendedUnit(t: string, order: seq<Unit>)
    requires IsMapOrder(order) && order != [] && order[|order| - 1] == B
    ensures FirstUnit(t, order) == IntendedUnit(t)
  {
    if EndsWith(t, KB) {
      BLastTwoLetter(t, order, KB);
    } else if EndsWith(t, MB) {
      BLastTwoLetter(t, order, MB);
    } else if EndsWith(t, GB) {
      BLastTwoLetter(t, order, GB);
    } else if EndsWith(t, TB) {
      BLastTwoLetter(t, order, TB);
    } else {
      BLastNoTwoLetter(t, order);
    }
  }

  /** A matching two-letter key is found before "B" and excludes every other one. */
  lemma BLastTwoLetter(t: string, order: seq<Unit>, u: Unit)
    requires IsMapOrder(order) && order != [] && order[|order| - 1] == B
    requires u in Units && u != B && EndsWith(t, u)
    ensures FirstUnit(t, order) == Some(u)
  {
    assert u in order;
    var p :| 0 <= p < |order| && order[p] == u;
    assert EndsWith(t, order[p]);
    var i := FirstSuffixMatch(t, order).value;
    assert i <= p < |order| - 1;
    TwoLetterSuffixesExclusive(t, order[i], u);
  }

  /** The keys other than "B" are the two-letter ones. */
  lemma TwoLetterKey(u: Unit)
    requires u in Units && u != B
    ensures u == KB || u == MB || u == GB || u == TB
  {
  }

  /** With no two-letter key matching, only the last entry "B" can match. */
  lemma BLastNoTwoLetter(t: string, order: seq<Unit>)
    requires IsMapOrder(order) && order != [] && order[|order| - 1] == B
    requires !EndsWith(t, KB) && !EndsWith(t, MB) && !EndsWith(t, GB) && !EndsWith(t, TB)
    ensures FirstUnit(t, order) == if EndsWith(t, B) then Some(B) else None
  {
    forall k | 0 <= k < |order| - 1
      ensures !EndsWith(t, order[k])
    {
      EntryBeforeLast(order, k);
      TwoLetterMiss(t, order[k]);
    }
    OnlyLastCanMatch(t, order);
  }

  /** In an order ending with "B", every earlier entry is a two-letter key. */
  lemma EntryBeforeLast(order: seq<Unit>, k: nat)
    requires IsMapOrder(order) && order != [] && order[|order| - 1] == B
    requires k < |order| - 1
    ensures order[k] in Units && order[k] != B
  {
  }

  /** A two-letter key that is none of the ones `t` was found not to end with. */
  lemma TwoLetterMiss(t: string, u: Unit)
    requires u in Units && u != B
    requires !EndsWith(t, KB) && !EndsWith(t, MB) && !EndsWith(t, GB) && !EndsWith(t, TB)
    ensures !EndsWith(t, u)
  {
    TwoLetterKey(u);
  }

  /** When no entry but the last can match, the search returns the last entry or nothing. */
  lemma OnlyLastCanMatch(t: string, order: seq<Unit>)
    requires order != []
    requires forall k :: 0 <= k < |order| - 1 ==> !EndsWith(t, order[k])
    ensures FirstUnit(t, order) == if EndsWith(t, order[|order| - 1]) then Some(order[|order| - 1]) else None
  {
    if EndsWith(t, order[|order| - 1]) {
      assert FirstSuffixMatch(t, order) == Some(|order| - 1);
    } else {
      assert FirstSuffixMatch(t, order) == None;
    }
  }

  /** `LongestFirst` is an order a `range` over the map may take, with "B" last. */
  lemma LongestFirstIsMapOrder()
    ensures IsMapOrder(LongestFirst) && LongestFirst[|LongestFirst| - 1] == B
  {
  }

  /** The search loop over `LongestFirst` finds the intended unit. */
  lemma LongestFirstSearch(t: string)
    ensures FirstUnit(t, LongestFirst) == IntendedUnit(t)
  {
    LongestFirstIsMapOrder();
    BLastFindsIntendedUnit(t, LongestFirst);
  }

  /**
   * With the two-letter suffixes first, a numeral followed by any unit is scaled by that
   * unit, and it is an error exactly when the numeral does not parse.
   */
  lemma ParseSizeLongestCorrect(n: string, u: Unit, parseFloat: string -> Option<real>)
    requires IsNumeral(n) && u in Units
    ensures parseFloat(n).None? ==> ParseSizeLongest(n + u.suffix, parseFloat) == Failure(InvalidSize(n + u.suffix))
    ensures parseFloat(n).Some? ==>
      ParseSizeLongest(n + u.suffix, parseFloat) == Success(Truncate(Product(parseFloat(n).value, u.multiplier)))
  {
    var t := n + u.suffix;
    NormalizeUpperNumeral(n, u);
    IntendedUnitOfNumeral(n, u);
    SuffixesEndWithB(u, t);
    LongestOnNormalised(t, u, parseFloat);
    ScaledAfterNumber(n, u, parseFloat);
  }

  /** On a normalised string that names a unit, the corrected search scales by that unit. */
  lemma LongestOnNormalised(t: string, u: Unit, parseFloat: string -> Option<real>)
    requires Normalize(t) == t && t != [] && t[|t| - 1] == 'B' && IntendedUnit(t) == Some(u)
    ensures ParseSizeLongest(t, parseFloat) == Scaled(t, u, parseFloat)
  {
    assert t != "0";
  }

  /** Scaling `n` followed by `u`'s suffix reads `n`. */
  lemma ScaledAfterNumber(n: string, u: Unit, parseFloat: string -> Option<real>)
    ensures parseFloat(n).None? ==> Scaled(n + u.suffix, u, parseFloat) == Failure(InvalidSize(n + u.suffix))
    ensures parseFloat(n).Some? ==>
      Scaled(n + u.suffix, u, parseFloat) == Success(Truncate(Product(parseFloat(n).value, u.multiplier)))
  {
    assert TrimSuffix(n + u.suffix, u.suffix) == n;
  }

  /** A numeral followed by a unit's suffix names that unit. */
  lemma IntendedUnitOfNumeral(n: string, u: Unit)
    requires IsNumeral(n) && u in Units
    ensures IntendedUnit(n + u.suffix) == Some(u)
  {
    var t := n + u.suffix;
    assert t[..|n|] == n;
    assert EndsWith(t, u);
    if u != B {
      TwoLetterIntended(t, u);
    } else {
      assert n == [] || t[|t| - 2] == n[|n| - 1];
      NoTwoLetterIntended(t);
    }
  }

  /** A string ending in a two-letter key names that key. */
  lemma TwoLetterIntended(t: string, u: Unit)
    requires u in Units && u != B && EndsWith(t, u)
    ensures IntendedUnit(t) == Some(u)
  {
    TwoLetterKey(u);
    if EndsWith(t, KB) {
      TwoLetterSuffixesExclusive(t, KB, u);
    } else if EndsWith(t, MB) {
      TwoLetterSuffixesExclusive(t, MB, u);
    } else if EndsWith(t, GB) {
      TwoLetterSuffixesExclusive(t, GB, u);
    }
  }

  /** A string whose last-but-one character is no capital letter names "B" if anything. */
  lemma NoTwoLetterIntended(t: string)
    requires t != [] && t[|t| - 1] == 'B'
    requires |t| < 2 || !('A' <= t[|t| - 2] <= 'Z')
    ensures IntendedUnit(t) == Some(B)
  {
    NotTwoLetter(t, KB);
    NotTwoLetter(t, MB);
    NotTwoLetter(t, GB);
    NotTwoLetter(t, TB);
    EndsWithLastB(t);
  }

  /** A two-letter key needs a capital letter in front of the final 'B'. */
  lemma NotTwoLetter(t: string, u: Unit)
    requires u in Units && u != B
    requires |t| < 2 || !('A' <= t[|t| - 2] <= 'Z')
    ensures !EndsWith(t, u)
  {
    if EndsWith(t, u) {
      TwoLetterShape(t, u);
    }
  }

  /** A string ending in a two-letter key has a capital letter in front of its final 'B'. */
  lemma TwoLetterShape(t: string, u: Unit)
    requires u in Units && u != B && EndsWith(t, u)
    ensures |t| >= 2 && 'A' <= t[|t| - 2] <= 'Z'
  {
    UnitSuffixShape(u);
    TwoLetterKey(u);
    assert t[|t| - 2] == t[|t| - |u.suffix|..][0];
  }

  /** The code as written agrees with the corrected search whenever `range` tries "B" last. */
  lemma AgreesWhenBLast(size: string, order: seq<Unit>, parseFloat: string -> Option<real>)
    requires IsMapOrder(order) && order != [] && order[|order| - 1] == B
    ensures ParseSizeSpec(size, order, parseFloat) == ParseSizeLongest(size, parseFloat)
  {
    BLastFindsIntendedUnit(Normalize(size), order);
  }

  // ---------------------------------------------------------------------------
  // FormatSize: choosing the unit
  // ---------------------------------------------------------------------------

  function Pow1024(k: nat): (p: int)
    ensures p >= 1
  {
    if k == 0 then 1 else 1024 * Pow1024(k - 1)
  }

  lemma {:induction false} Pow1024Monotone(a: nat, b: nat)
    requires a <= b
    ensures Pow1024(a) <= Pow1024(b)
    decreases b
  {
    if a < b {
      Pow1024Monotone(a, b - 1);
    }
  }

  /** The nonlinear facts the unit loop rests on. */
  lemma MulNonneg(a: int, b: int)
    requires a >= 0 && b >= 0
    ensures a * b >= 0
  {
  }

  lemma MulMonotone(a: int, x: int, y: int)
    requires a >= 0 && x <= y
    ensures a * x <= a * y
  {
    MulNonneg(a, y - x);
    assert a * (y - x) == a * y - a * x;
  }

  /** q = b / d is bracketed by d * q <= b < d * (q + 1). */
  lemma DivBracket(b: int, d: int)
    requires b >= 0 && d > 0
    ensures d * (b / d) <= b < d * (b / d) + d
  {
  }

  /** The quotient is the one q with d * q <= b < d * q + d. */
  lemma DivUnique(b: int, d: int, q: int)
    requires b >= 0 && d > 0
    requires d * q <= b < d * q + d
    ensures b / d == q
  {
    DivBracket(b, d);
    var r := b / d;
    if r < q {
      MulMonotone(d, r + 1, q);
    } else if r > q {
      MulMonotone(d, q + 1, r);
    }
  }

  /** Dividing by d and then by 1024 is dividing by d * 1024. */
  lemma DivDiv(b: int, d: int)
    requires b >= 0 && d > 0
    ensures b / d / 1024 == b / (d * 1024)
  {
    var q := b / d;
    var q2 := q / 1024;
    DivBracket(b, d);
    assert 1024 * q2 <= q < 1024 * q2 + 1024;
    MulMonotone(d, 1024 * q2, q);
    MulMonotone(d, q + 1, 1024 * q2 + 1024);
    assert d * (1024 * q2) == (d * 1024) * q2;
    assert d * (q + 1) == d * q + d;
    assert d * (1024 * q2 + 1024) == (d * 1024) * q2 + d * 1024;
    DivUnique(b, d * 1024, q2);
  }

  /**
   * The exponent the loop ends with for a count of at least 1024 bytes: the unit
   * 1024^(e+1) is at most the count and the count is less than 1024 such units.
   */
  function UnitExponent(b: int): (e: nat)
    requires b >= 1024
    ensures Pow1024(e + 1) <= b < Pow1024(e + 2)
    decreases b
  {
    if b < 1024 * 1024 then 0
    else
      var e := UnitExponent(b / 1024);
      DivBracket(b, 1024);
      1 + e
  }

  /** Only one exponent brackets a count. */
  lemma UnitExponentUnique(b: int, e: nat)
    requires b >= 1024
    requires Pow1024(e + 1) <= b < Pow1024(e + 2)
    ensures e == UnitExponent(b)
  {
    var f := UnitExponent(b);
    if e < f {
      Pow1024Monotone(e + 2, f + 1);
    } else if f < e {
      Pow1024Monotone(f + 2, e + 1);
    }
  }

  /** For every int64 count the exponent indexes "KMGTPE". */
  lemma UnitExponentInRange(b: int64)
    requires b >= 1024
    ensures UnitExponent(b as int) <= 5
  {
    var e := UnitExponent(b as int);
    assert Pow1024(7) > MaxInt64;
    if e > 5 {
      Pow1024Monotone(7, e + 1);
    }
  }

  /** What `FormatSize` prints, before the `%d` and `%.1f` rendering. */
  datatype HumanSize =
    | InBytes(count: int)                               // "%d B"
    | InUnit(bytes: int, divisor: int, unit: char)      // "%.1f %cB" of bytes / divisor

  /** The unit letters, 1024^1 to 1024^6. */
  const UnitLetters := "KMGTPE"

  /** The display of a byte count. */
  function Humanize(bytes: int64): (r: HumanSize)
    ensures bytes < 1024 <==> r == InBytes(bytes as int)
    ensures r.InUnit? ==> r.bytes == bytes as int && r.divisor <= r.bytes < 1024 * r.divisor
    ensures r.InUnit? ==> exists e :: 0 <= e < |UnitLetters| && r.divisor == Pow1024(e + 1) && r.unit == UnitLetters[e]
  {
    if bytes < 1024 then InBytes(bytes as int)
    else
      var e := UnitExponent(bytes as int);
      UnitExponentInRange(bytes);
      InUnit(bytes as int, Pow1024(e + 1), UnitLetters[e])
  }

  /** Every unit has one divisor and one letter: the letter tells the divisor. */
  lemma HumanizeLetterDecidesDivisor(x: int64, y: int64)
    requires Humanize(x).InUnit? && Humanize(y).InUnit?
    ensures Humanize(x).unit == Humanize(y).unit <==> Humanize(x).divisor == Humanize(y).divisor
  {
    var ex := UnitExponent(x as int);
    var ey := UnitExponent(y as int);
    UnitExponentInRange(x);
    UnitExponentInRange(y);
    LettersDistinct(ex, ey);
    if ex < ey {
      Pow1024Monotone(ex + 2, ey + 1);
    } else if ey < ex {
      Pow1024Monotone(ey + 2, ex + 1);
    }
  }

  lemma LettersDistinct(i: nat, j: nat)
    requires i < |UnitLetters| && j < |UnitLetters|
    ensures UnitLetters[i] == UnitLetters[j] <==> i == j
  {
  }

  /** One turn of the loop: another factor 1024 still fits, and n / 1024 is the new quotient. */
  lemma LoopStep(bytes: int, div: int, n: int)
    requires bytes >= 0 && div > 0 && n == bytes / div && n >= 1024
    ensures div * 1024 <= bytes
    ensures n / 1024 == bytes / (div * 1024)
  {
    DivBracket(bytes, div);
    MulMonotone(div, 1024, n);
    DivDiv(bytes, div);
  }

  /** The loop's exit: fewer than 1024 units of `div` are left. */
  lemma LoopExit(bytes: int, div: int, n: int)
    requires bytes >= 0 && div > 0 && n == bytes / div && n < 1024
    ensures bytes < 1024 * div
  {
    DivBracket(bytes, div);
    MulMonotone(div, n, 1023);
  }

  /** The code as written: divide by 1024 until fewer than 1024 units are left. */
  method FormatSize(bytes: int64) returns (r: HumanSize)
    ensures r == Humanize(bytes)
  {
    if bytes < 1024 {
      return InBytes(bytes as int);
    }
    var div: int64, exp: nat := 1024, 0;
    var n: int64 := bytes / 1024;
    while n >= 1024
      invariant div as int == Pow1024(exp + 1) && div <= bytes
      invariant n as int == bytes as int / div as int
      decreases n
    {
      LoopStep(bytes as int, div as int, n as int);
      div := div * 1024;
      exp := exp + 1;
      n := n / 1024;
    }
    LoopExit(bytes as int, div as int, n as int);
    UnitExponentUnique(bytes as int, exp);
    UnitExponentInRange(bytes);
    r := InUnit(bytes as int, div as int, UnitLetters[exp]);
  }
}

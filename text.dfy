/**
 * The Go library string and path helpers the core relies on: `strings.TrimSpace`,
 * `strings.ToUpper`, `strings.HasPrefix`/`HasSuffix`/`TrimSuffix`, `filepath.Base`,
 * `filepath.Ext` (with `/` as the only separator) and `%d` rendering of a natural number.
 */
module Text {

  // ---------------------------------------------------------------------------
  // Prefixes and suffixes
  // ---------------------------------------------------------------------------

  predicate HasPrefix(s: string, prefix: string) {
    |prefix| <= |s| && s[..|prefix|] == prefix
  }

  predicate HasSuffix(s: string, suffix: string) {
    |suffix| <= |s| && s[|s| - |suffix|..] == suffix
  }

  /** `strings.TrimSuffix`: drops `suffix` once if `s` ends with it. */
  function TrimSuffix(s: string, suffix: string): (r: string)
    ensures HasSuffix(s, suffix) ==> r + suffix == s
    ensures !HasSuffix(s, suffix) ==> r == s
  {
    if HasSuffix(s, suffix) then s[..|s| - |suffix|] else s
  }

  // ---------------------------------------------------------------------------
  // White space and case (unicode.IsSpace; upper-casing of ASCII letters)
  // ---------------------------------------------------------------------------

  /** Go's `unicode.IsSpace`: the Latin-1 spaces and the Unicode White_Space characters. */
  predicate IsSpace(c: char) {
    c == ' ' || c == '\t' || c == '\n' || c == '\U{000B}' || c == '\U{000C}' || c == '\r'
    || c == '\U{0085}' || c == '\U{00A0}' || c == '\U{1680}'
    || ('\U{2000}' <= c <= '\U{200A}')
    || c == '\U{2028}' || c == '\U{2029}' || c == '\U{202F}' || c == '\U{205F}' || c == '\U{3000}'
  }

  predicate AllSpace(s: string) {
    forall i :: 0 <= i < |s| ==> IsSpace(s[i])
  }

  function TrimLeftSpace(s: string): (r: string)
    ensures |r| <= |s| && r == s[|s| - |r|..] && AllSpace(s[..|s| - |r|])
    ensures r == [] || !IsSpace(r[0])
  {
    if s != [] && IsSpace(s[0]) then
      var r := TrimLeftSpace(s[1..]);
      assert s[1..][..|s| - 1 - |r|] == s[1..|s| - |r|];
      r
    else
      s
  }

  function TrimRightSpace(s: string): (r: string)
    ensures |r| <= |s| && r == s[..|r|] && AllSpace(s[|r|..])
    ensures r == [] || !IsSpace(r[|r| - 1])
  {
    if s != [] && IsSpace(s[|s| - 1]) then
      var r := TrimRightSpace(s[..|s| - 1]);
      assert s[..|s| - 1][..|r|] == s[..|r|];
      assert s[..|s| - 1][|r|..] == s[|r|..|s| - 1];
      assert s[|r|..] == s[|r|..|s| - 1] + [s[|s| - 1]];
      r
    else
      s
  }

  /**
   * `strings.TrimSpace`: the middle of `s` left once the leading and the trailing
   * white space are cut off.
   */
  function TrimSpace(s: string): (r: string)
    ensures |r| <= |s|
    ensures r == [] || (!IsSpace(r[0]) && !IsSpace(r[|r| - 1]))
  {
    var l := TrimLeftSpace(s);
    var r := TrimRightSpace(l);
    assert r != [] ==> r[0] == l[0];
    r
  }

  lemma {:induction false} TrimLeftAfterSpace(pad: string, t: string)
    requires AllSpace(pad)
    ensures TrimLeftSpace(pad + t) == TrimLeftSpace(t)
  {
    if pad == [] {
      assert pad + t == t;
    } else {
      assert (pad + t)[0] == pad[0];
      assert (pad + t)[1..] == pad[1..] + t;
      TrimLeftAfterSpace(pad[1..], t);
    }
  }

  lemma {:induction false} TrimRightBeforeSpace(t: string, pad: string)
    requires AllSpace(pad)
    ensures TrimRightSpace(t + pad) == TrimRightSpace(t)
  {
    if pad == [] {
      assert t + pad == t;
    } else {
      assert (t + pad)[|t + pad| - 1] == pad[|pad| - 1];
      assert (t + pad)[..|t + pad| - 1] == t + pad[..|pad| - 1];
      TrimRightBeforeSpace(t, pad[..|pad| - 1]);
    }
  }

  lemma {:induction false} TrimLeftAppend(t: string, tail: string)
    ensures TrimLeftSpace(t) != [] ==> TrimLeftSpace(t + tail) == TrimLeftSpace(t) + tail
    ensures TrimLeftSpace(t) == [] ==> TrimLeftSpace(t + tail) == TrimLeftSpace(tail)
  {
    if t == [] {
      assert t + tail == tail;
    } else {
      assert (t + tail)[0] == t[0];
      if IsSpace(t[0]) {
        assert (t + tail)[1..] == t[1..] + tail;
        TrimLeftAppend(t[1..], tail);
      }
    }
  }

  /** A string that neither starts nor ends with white space is its own TrimSpace. */
  lemma TrimSpaceKeepsTrimmed(s: string)
    requires s == [] || (!IsSpace(s[0]) && !IsSpace(s[|s| - 1]))
    ensures TrimSpace(s) == s
  {
  }

  /** `TrimSpace` keeps a contiguous part of its input, starting at `a`. */
  lemma TrimSpaceIsSlice(s: string) returns (a: nat)
    ensures a + |TrimSpace(s)| <= |s| && TrimSpace(s) == s[a..a + |TrimSpace(s)|]
  {
    var l := TrimLeftSpace(s);
    a := |s| - |l|;
    assert TrimSpace(s) == TrimRightSpace(l);
  }

  /** Surrounding white space does not change what `TrimSpace` keeps. */
  lemma TrimSpaceIgnoresPadding(pad1: string, t: string, pad2: string)
    requires AllSpace(pad1) && AllSpace(pad2)
    ensures TrimSpace(pad1 + t + pad2) == TrimSpace(t)
  {
    assert pad1 + t + pad2 == pad1 + (t + pad2);
    TrimLeftAfterSpace(pad1, t + pad2);
    TrimLeftAppend(t, pad2);
    if TrimLeftSpace(t) != [] {
      TrimRightBeforeSpace(TrimLeftSpace(t), pad2);
    } else {
      TrimLeftAfterSpace(pad2, []);
      assert pad2 + [] == pad2;
    }
  }

  /** `unicode.ToUpper` restricted to ASCII: `a`..`z` become `A`..`Z`, all else is kept. */
  function UpperChar(c: char): (u: char)
    ensures 'a' <= c <= 'z' ==> u as int == c as int - 32
    ensures !('a' <= c <= 'z') ==> u == c
  {
    if 'a' <= c <= 'z' then (c as int - 32) as char else c
  }

  /** `strings.ToUpper` on ASCII text. */
  function ToUpper(s: string): (r: string)
    ensures |r| == |s| && forall i :: 0 <= i < |s| ==> r[i] == UpperChar(s[i])
  {
    seq(|s|, i requires 0 <= i < |s| => UpperChar(s[i]))
  }

  /** A string without lower-case letters is its own upper case. */
  lemma UpperKeepsUpper(s: string)
    requires forall i :: 0 <= i < |s| ==> !('a' <= s[i] <= 'z')
    ensures ToUpper(s) == s
  {
  }

  lemma UpperKeepsSpace(pad: string)
    requires AllSpace(pad)
    ensures ToUpper(pad) == pad
  {
  }

  lemma UpperDistributes(a: string, b: string)
    ensures ToUpper(a + b) == ToUpper(a) + ToUpper(b)
  {
  }

  // ---------------------------------------------------------------------------
  // Paths (filepath.Base and filepath.Ext with `/` as separator)
  // ---------------------------------------------------------------------------

  function StripTrailingSlashes(p: string): (r: string)
    ensures HasPrefix(p, r)
    ensures r == [] || r[|r| - 1] != '/'
    ensures forall i :: |r| <= i < |p| ==> p[i] == '/'
  {
    if p != [] && p[|p| - 1] == '/' then StripTrailingSlashes(p[..|p| - 1]) else p
  }

  /** The characters after the last `/` of `p`. */
  function LastElement(p: string): (r: string)
    ensures HasSuffix(p, r)
    ensures '/' !in r
    ensures |r| < |p| ==> p[|p| - |r| - 1] == '/'
  {
    if p == [] || p[|p| - 1] == '/' then []
    else
      var r := LastElement(p[..|p| - 1]);
      assert r + [p[|p| - 1]] == p[|p| - |r| - 1..];
      r + [p[|p| - 1]]
  }

  /**
   * `filepath.Base`: the last element of the path once trailing slashes are removed;
   * `"."` for the empty path and `"/"` for a path made only of slashes.
   */
  function Base(path: string): (r: string)
    ensures r != []
    ensures path == [] ==> r == "."
    ensures r == "/" || '/' !in r
  {
    if path == [] then "."
    else
      var p := StripTrailingSlashes(path);
      if p == [] then "/" else LastElement(p)
  }

  /** The base name of `dir/name` is `name` when `name` is a single path element. */
  lemma BaseAfterSlash(dir: string, name: string)
    requires name != [] && '/' !in name
    ensures Base(dir + "/" + name) == name
  {
    var p := dir + "/" + name;
    assert p[|p| - 1] == name[|name| - 1];
    LastElementAfterSlash(dir, name);
  }

  lemma {:induction false} LastElementAfterSlash(dir: string, name: string)
    requires '/' !in name
    ensures LastElement(dir + "/" + name) == name
  {
    var p := dir + "/" + name;
    if name != [] {
      var init := name[..|name| - 1];
      assert p[..|p| - 1] == dir + "/" + init;
      LastElementAfterSlash(dir, init);
      assert init + [name[|name| - 1]] == name;
    }
  }

  /** No `.` after the last `/` of `p`. */
  predicate NoDotInLastElement(p: string) {
    forall i :: 0 <= i < |p| && p[i] == '.' ==> exists j :: i < j < |p| && p[j] == '/'
  }

  /**
   * `filepath.Ext`: the suffix of `p` that starts at the last `.` of its last element,
   * or `""` when that element has no `.`.
   */
  function Ext(p: string): (r: string)
    ensures HasSuffix(p, r)
    ensures r != [] ==> r[0] == '.' && '.' !in r[1..] && '/' !in r
    ensures r == [] <==> NoDotInLastElement(p)
  {
    if p == [] then []
    else if p[|p| - 1] == '/' then
      assert forall i :: 0 <= i < |p| - 1 ==> p[i] == p[..|p| - 1][i];
      []
    else if p[|p| - 1] == '.' then "."
    else
      var e := Ext(p[..|p| - 1]);
      assert forall i :: 0 <= i < |p| - 1 ==> p[i] == p[..|p| - 1][i];
      if e == [] then [] else
        assert e + [p[|p| - 1]] == p[|p| - |e| - 1..];
        e + [p[|p| - 1]]
  }

  /** An extension appended to any stem is the extension of the result. */
  lemma {:induction false} ExtOfSuffix(stem: string, ext: string)
    requires ext != [] && ext[0] == '.' && '.' !in ext[1..] && '/' !in ext
    ensures Ext(stem + ext) == ext
  {
    var p := stem + ext;
    if |ext| > 1 {
      var init := ext[..|ext| - 1];
      assert p[..|p| - 1] == stem + init;
      assert p[|p| - 1] == ext[|ext| - 1] == ext[1..][|ext| - 2];
      assert '.' !in init[1..] by { assert init[1..] == ext[1..][..|ext| - 2]; }
      ExtOfSuffix(stem, init);
      assert init + [ext[|ext| - 1]] == ext;
    }
  }

  /** Appending text without `.` to a last element without `.` leaves it without one. */
  lemma NoDotAppend(p: string, tail: string)
    requires NoDotInLastElement(p)
    requires '.' !in tail
    ensures NoDotInLastElement(p + tail)
  {
    var q := p + tail;
    forall i | 0 <= i < |q| && q[i] == '.'
      ensures exists j :: i < j < |q| && q[j] == '/'
    {
      assert i < |p|;
      var j :| i < j < |p| && p[j] == '/';
      assert q[j] == '/';
    }
  }

  // ---------------------------------------------------------------------------
  // Decimal rendering of natural numbers (fmt's %d for a non-negative int)
  // ---------------------------------------------------------------------------

  predicate IsDigit(c: char) {
    '0' <= c <= '9'
  }

  function DigitChar(d: nat): (c: char)
    requires d < 10
    ensures IsDigit(c) && c as int - '0' as int == d
  {
    ('0' as int + d) as char
  }

  /** The shortest decimal text of `n`. */
  function Decimal(n: nat): (r: string)
    ensures r != []
    ensures forall i :: 0 <= i < |r| ==> IsDigit(r[i])
  {
    if n < 10 then [DigitChar(n)] else Decimal(n / 10) + [DigitChar(n % 10)]
  }

  /** The value of a string of decimal digits. */
  function DecimalValue(s: string): nat
    requires forall i :: 0 <= i < |s| ==> IsDigit(s[i])
  {
    if s == [] then 0
    else
      assert IsDigit(s[|s| - 1]);
      DecimalValue(s[..|s| - 1]) * 10 + (s[|s| - 1] as int - '0' as int)
  }

  /** Reading back the decimal text of `n` gives `n`. */
  lemma {:induction false} DecimalRoundTrip(n: nat)
    ensures DecimalValue(Decimal(n)) == n
  {
    if n >= 10 {
      var s := Decimal(n);
      assert s[..|s| - 1] == Decimal(n / 10);
      DecimalRoundTrip(n / 10);
    }
  }

  lemma DecimalInjective(a: nat, b: nat)
    requires Decimal(a) == Decimal(b)
    ensures a == b
  {
    DecimalRoundTrip(a);
    DecimalRoundTrip(b);
  }
}

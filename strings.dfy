/**
 * String helpers of the JavaScript runtime that the tools rely on:
 * `startsWith`/`endsWith`, `split` on one character, `join`, `trim`,
 * number-to-string conversion, and the `/`-separated file-name functions
 * `path.basename` and `path.extname` of Node's POSIX path module.
 */
module Strings {

  import opened Wrappers

  predicate StartsWith(s: string, prefix: string) {
    |prefix| <= |s| && s[..|prefix|] == prefix
  }

  predicate EndsWith(s: string, suffix: string) {
    |suffix| <= |s| && s[|s| - |suffix|..] == suffix
  }

  /** Index of the first occurrence of `c` in `s`, or -1 when there is none. */
  function IndexOf(s: string, c: char): (r: int)
    ensures -1 <= r
    ensures r == -1 <==> c !in s
    ensures 0 <= r ==> r < |s| && s[r] == c && c !in s[..r]
  {
    if |s| == 0 then -1
    else if s[0] == c then 0
    else
      var k := IndexOf(s[1..], c);
      if k < 0 then -1 else assert s[..k + 1] == [s[0]] + s[1..][..k]; k + 1
  }

  /** Index of the last occurrence of `c` in `s`, or -1 when there is none. */
  function LastIndexOf(s: string, c: char): (r: int)
    ensures -1 <= r
    ensures r == -1 <==> c !in s
    ensures 0 <= r ==> r < |s| && s[r] == c && c !in s[r + 1..]
  {
    if |s| == 0 then -1
    else if s[|s| - 1] == c then |s| - 1
    else
      var init := s[..|s| - 1];
      var k := LastIndexOf(init, c);
      assert s == init + [s[|s| - 1]];
      if k < 0 then -1 else assert s[k + 1..] == init[k + 1..] + [s[|s| - 1]]; k
  }

  /** `parts.join(sep)` */
  function Join(parts: seq<string>, sep: string): string {
    if |parts| == 0 then ""
    else if |parts| == 1 then parts[0]
    else parts[0] + sep + Join(parts[1..], sep)
  }

  /** `s.split(sep)` for a one-character separator: never empty. */
  function Split(s: string, sep: char): (r: seq<string>)
    ensures |r| >= 1
    decreases |s|
  {
    var i := IndexOf(s, sep);
    if i < 0 then [s] else [s[..i]] + Split(s[i + 1..], sep)
  }

  /** No piece of a split holds the separator. */
  lemma {:induction false} SplitPiecesFree(s: string, sep: char)
    ensures forall k :: 0 <= k < |Split(s, sep)| ==> sep !in Split(s, sep)[k]
    decreases |s|
  {
    var i := IndexOf(s, sep);
    if i >= 0 {
      SplitPiecesFree(s[i + 1..], sep);
      SplitStep(s, sep, i);
    }
  }

  /** One step of `split`: the piece before the first separator, then the split of the rest. */
  lemma SplitStep(s: string, sep: char, i: int)
    requires i == IndexOf(s, sep) && i >= 0
    ensures Split(s, sep) == [s[..i]] + Split(s[i + 1..], sep)
  {
    var r := Split(s, sep);
    var t := Split(s[i + 1..], sep);
    assert r == [s[..i]] + t;
  }

  /** `join` of a head piece and a non-empty tail. */
  lemma JoinCons(head: string, tail: seq<string>, sep: string)
    requires |tail| >= 1
    ensures Join([head] + tail, sep) == head + sep + Join(tail, sep)
  {
    assert ([head] + tail)[1..] == tail;
  }

  /** Joining the pieces of a split with the separator gives back the string. */
  lemma {:induction false} JoinSplit(s: string, sep: char)
    ensures Join(Split(s, sep), [sep]) == s
    decreases |s|
  {
    var i := IndexOf(s, sep);
    if i >= 0 {
      var rest := s[i + 1..];
      JoinSplit(rest, sep);
      SplitStep(s, sep, i);
      JoinCons(s[..i], Split(rest, sep), [sep]);
      assert s == s[..i] + [sep] + rest;
    }
  }

  /** A join of at least one piece starts with the first piece. */
  lemma JoinStartsWith(parts: seq<string>, sep: string)
    requires |parts| >= 1
    ensures StartsWith(Join(parts, sep), parts[0])
  {
    var s := Join(parts, sep);
    if |parts| > 1 {
      assert s == parts[0] + (sep + Join(parts[1..], sep));
    }
    assert s[..|parts[0]|] == parts[0];
  }

  /** A character in neither part is not in their concatenation. */
  lemma NotInConcat(a: string, b: string, c: char)
    requires c !in a && c !in b
    ensures c !in a + b
  {
    assert forall k :: 0 <= k < |a + b| ==> (a + b)[k] == (if k < |a| then a[k] else b[k - |a|]);
  }

  /** Splitting a join of separator-free pieces gives back the pieces. */
  lemma {:induction false} SplitJoin(parts: seq<string>, sep: char)
    requires |parts| >= 1
    requires forall i :: 0 <= i < |parts| ==> sep !in parts[i]
    ensures Split(Join(parts, [sep]), sep) == parts
  {
    if |parts| == 1 {
      assert IndexOf(parts[0], sep) == -1;
    } else {
      var s := Join(parts, [sep]);
      var tail := Join(parts[1..], [sep]);
      assert s == parts[0] + [sep] + tail;
      assert s[|parts[0]|] == sep;
      assert s[..|parts[0]|] == parts[0];
      var i := IndexOf(s, sep);
      assert sep !in s[..|parts[0]|];
      assert i == |parts[0]|;
      assert s[i + 1..] == tail;
      SplitJoin(parts[1..], sep);
    }
  }

  /**
   * The characters `String.prototype.trim` removes: the ECMAScript
   * WhiteSpace and LineTerminator code points.
   */
  predicate IsWhitespace(c: char) {
    c == ' ' || c == '\t' || c == '\n' || c == '\r' || c == '\U{000B}' || c == '\U{000C}'
    || c == '\U{00A0}' || c == '\U{1680}' || ('\U{2000}' <= c <= '\U{200A}')
    || c == '\U{2028}' || c == '\U{2029}' || c == '\U{202F}' || c == '\U{205F}'
    || c == '\U{3000}' || c == '\U{FEFF}'
  }

  function TrimStart(s: string): (r: string)
    ensures EndsWith(s, r)
    ensures r == [] || !IsWhitespace(r[0])
    ensures forall i :: 0 <= i < |s| - |r| ==> IsWhitespace(s[i])
  {
    if |s| > 0 && IsWhitespace(s[0]) then TrimStart(s[1..]) else s
  }

  function TrimEnd(s: string): (r: string)
    ensures StartsWith(s, r)
    ensures r == [] || !IsWhitespace(r[|r| - 1])
    ensures forall i :: |r| <= i < |s| ==> IsWhitespace(s[i])
  {
    if |s| > 0 && IsWhitespace(s[|s| - 1]) then TrimEnd(s[..|s| - 1]) else s
  }

  /** `s.trim()` */
  function Trim(s: string): string {
    TrimEnd(TrimStart(s))
  }

  /** True of a string that `trim` leaves unchanged. */
  predicate IsTrimmed(s: string) {
    s == [] || (!IsWhitespace(s[0]) && !IsWhitespace(s[|s| - 1]))
  }

  /** `trim` leaves no whitespace at either end. */
  lemma TrimIsTrimmed(s: string)
    ensures IsTrimmed(Trim(s))
  {
    var a := TrimStart(s);
    var r := TrimEnd(a);
    if r != [] {
      assert r[0] == a[0];
    }
  }

  /** A trimmed string is a fixed point of `trim`. */
  lemma TrimOfTrimmed(s: string)
    requires IsTrimmed(s)
    ensures Trim(s) == s
  {
  }

  /** `trim` is idempotent. */
  lemma TrimIdempotent(s: string)
    ensures Trim(Trim(s)) == Trim(s)
  {
    TrimIsTrimmed(s);
    TrimOfTrimmed(Trim(s));
  }

  /** `path.basename(p)` for a `/`-separated path without a trailing slash. */
  function Basename(p: string): (r: string)
    ensures EndsWith(p, r)
    ensures '/' !in r
    ensures '/' !in p ==> r == p
  {
    var k := LastIndexOf(p, '/');
    if k < 0 then p else p[k + 1..]
  }

  /** With a '/' in the path, the base name is what follows the last '/'. */
  lemma BasenameAfterSlash(p: string)
    requires '/' in p
    ensures EndsWith(p, "/" + Basename(p))
  {
    var k := LastIndexOf(p, '/');
    assert p[k..] == "/" + p[k + 1..];
  }

  /** The base name of `<dir>/<name>` is `name`, for a `/`-free name. */
  lemma BasenameOf(dir: string, name: string)
    requires '/' !in name
    ensures Basename(dir + "/" + name) == name
  {
    var p := dir + "/" + name;
    var r := Basename(p);
    assert p[|dir|] == '/';
    BasenameAfterSlash(p);
    assert r == p[|p| - |r|..] == name;
  }

  /**
   * `path.extname(name)` for a name without `/`: from the last dot to the end,
   * or "" when there is no dot, when the only dot starts the name (".bashrc"),
   * or for "..".
   */
  function Extname(name: string): (r: string)
    ensures EndsWith(name, r)
    ensures r == [] || (r[0] == '.' && '.' !in r[1..])
    ensures |r| < |name| || r == []
  {
    var k := LastIndexOf(name, '.');
    if k <= 0 || name == ".." then "" else name[k..]
  }

  /**
   * The extension is non-empty exactly when the name is not ".." and has a
   * dot after its first character; it then runs from the last dot.
   */
  lemma ExtnameNonEmpty(name: string)
    ensures Extname(name) != [] <==> name != ".." && exists k :: 0 < k < |name| && name[k] == '.'
  {
    var k := LastIndexOf(name, '.');
    assert k == 0 ==> forall j :: 0 < j < |name| ==> name[j] == name[1..][j - 1];
  }

  /** The extension of `<stem>.<ext>` is `.<ext>`, for a dot-free `ext` and a stem other than "" and ".". */
  lemma ExtnameOf(stem: string, ext: string)
    requires '.' !in ext && stem != "" && stem != "."
    ensures Extname(stem + "." + ext) == "." + ext
  {
    var name := stem + "." + ext;
    var r := Extname(name);
    ExtnameNonEmpty(name);
    assert 0 < |stem| < |name| && name[|stem|] == '.';
    assert name[..|stem|] == stem;
    assert name != ".." by {
      assert |stem| >= 2 || stem[0] != '.';
      assert name[0] == stem[0];
    }
    assert r == name[|name| - |r|..] == "." + ext;
  }

  /** The file name without its extension, `path.basename(f, path.extname(f))`. */
  function Stem(name: string): (r: string)
    ensures r + Extname(name) == name
  {
    name[..|name| - |Extname(name)|]
  }

  function DigitChar(d: nat): (c: char)
    requires d < 10
    ensures '0' <= c <= '9'
  {
    "0123456789"[d]
  }

  function DigitValue(c: char): nat
    requires '0' <= c <= '9'
  {
    (c as int - '0' as int) as nat
  }

  /** Every character is a decimal digit. */
  predicate IsDigits(s: string) {
    forall i :: 0 <= i < |s| ==> '0' <= s[i] <= '9'
  }

  /** The decimal notation of a natural number, as `${n}` prints it. */
  function NatToString(n: nat): (r: string)
    ensures |r| >= 1 && IsDigits(r)
    ensures r[0] == '0' ==> n == 0
  {
    if n < 10 then [DigitChar(n)] else NatToString(n / 10) + [DigitChar(n % 10)]
  }

  /** The decimal notation of an integer, with a leading '-' when negative. */
  function IntToString(i: int): string {
    if i < 0 then "-" + NatToString(-i) else NatToString(i)
  }

  /** The value of a string of decimal digits. */
  function DecimalValue(s: string): nat
    requires IsDigits(s)
  {
    if |s| == 0 then 0 else DecimalValue(s[..|s| - 1]) * 10 + DigitValue(s[|s| - 1])
  }

  /** Reading back a signed decimal string. */
  function ParseInt(s: string): Option<int>
  {
    if |s| > 1 && s[0] == '-' && IsDigits(s[1..]) then Some(-(DecimalValue(s[1..]) as int))
    else if |s| > 0 && IsDigits(s) then Some(DecimalValue(s) as int)
    else None
  }

  lemma {:induction false} NatToStringRoundTrip(n: nat)
    ensures DecimalValue(NatToString(n)) == n
  {
    if n >= 10 {
      NatToStringRoundTrip(n / 10);
      var r := NatToString(n);
      assert r[..|r| - 1] == NatToString(n / 10);
      assert DigitValue(DigitChar(n % 10)) == n % 10;
    } else {
      assert DigitValue(DigitChar(n)) == n;
    }
  }

  /** A digit string reads back as its value, and with a leading '-' as its negation. */
  lemma ParseDigits(d: string)
    requires |d| >= 1 && IsDigits(d)
    ensures ParseInt(d) == Some(DecimalValue(d) as int)
    ensures ParseInt("-" + d) == Some(-(DecimalValue(d) as int))
  {
    assert ("-" + d)[1..] == d;
  }

  /** The decimal notation of an integer reads back as that integer. */
  lemma IntToStringRoundTrip(i: int)
    ensures ParseInt(IntToString(i)) == Some(i)
  {
    var n: nat := if i < 0 then -i else i;
    ParseDigits(NatToString(n));
    NatToStringRoundTrip(n);
  }

  /** Different integers print differently. */
  lemma IntToStringInjective(i: int, j: int)
    requires IntToString(i) == IntToString(j)
    ensures i == j
  {
    IntToStringRoundTrip(i);
    IntToStringRoundTrip(j);
  }
}

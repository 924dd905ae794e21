/**
 * The names the chunk endpoint works with (upload_chunk.php): the
 * sanitizeName function, the "<name>.part<i>" names of staged chunks and
 * the probe's pattern that reads an index back out of them, the
 * "<stem>_<k>.<ext>" names tried when an output name is taken, and the
 * rawurlencode of the returned url.  Word characters are the ASCII ones.
 */
module UploadNames {
  import opened Common

  // ---------------------------------------------------------------------
  // sanitizeName (upload_chunk.php:18-24)

  predicate IsWordChar(c: char) {
    'a' <= c <= 'z' || 'A' <= c <= 'Z' || '0' <= c <= '9' || c == '_'
  }

  /** The characters the pattern [^\w\-.] does not match. */
  predicate IsNameChar(c: char) { IsWordChar(c) || c == '-' || c == '.' }

  predicate AllNameChars(s: string) { forall i :: 0 <= i < |s| ==> IsNameChar(s[i]) }

  /** What sanitizeName promises of its result. */
  predicate IsSafeName(s: string) {
    AllNameChars(s) && s != "" && s != "." && s != ".."
  }

  /** A timestamp as date('Ymd_His') writes it: 8 digits, '_', 6 digits. */
  predicate IsStamp(s: string) {
    |s| == 15 && s[8] == '_' && forall i :: 0 <= i < 15 && i != 8 ==> IsDigit(s[i])
  }

  /** The fallback name used when sanitizing leaves nothing usable. */
  function FallbackName(stamp: string): (r: string)
    ensures IsStamp(stamp) ==> IsSafeName(r)
  {
    "upload_" + stamp
  }

  /** Drops the run of characters the pattern matches at the front of s. */
  function SkipRun(s: string): (r: string)
    ensures |r| <= |s| && r == s[|s| - |r|..]
    ensures r == [] || IsNameChar(r[0])
    ensures forall i :: 0 <= i < |s| - |r| ==> !IsNameChar(s[i])
  {
    if s == [] || IsNameChar(s[0]) then s else SkipRun(s[1..])
  }

  /**
   * preg_replace('/[^\w\-.]+/', '_', s): every maximal run of characters
   * outside [\w\-.] becomes a single '_', everything else is kept in order.
   */
  function ReplaceRuns(s: string): (r: string)
    ensures AllNameChars(r)
    ensures |r| <= |s|
    ensures r == [] <==> s == []
    ensures r == s <==> AllNameChars(s)
    decreases |s|
  {
    if s == [] then []
    else if IsNameChar(s[0]) then [s[0]] + ReplaceRuns(s[1..])
    else "_" + ReplaceRuns(SkipRun(s[1..]))
  }

  /** Skipping a run stops inside s when s ends with a character the pattern keeps. */
  lemma {:induction false} SkipRunAppend(s: string, t: string)
    requires s != [] && IsNameChar(s[|s| - 1])
    ensures SkipRun(s + t) == SkipRun(s) + t
  {
    if !IsNameChar(s[0]) {
      ConsTail(s, t);
      SkipRunAppend(s[1..], t);
    }
  }

  /** A run of replaced characters is skipped entirely, up to the next kept character. */
  lemma {:induction false} SkipRunOver(r: string, b: string)
    requires forall i :: 0 <= i < |r| ==> !IsNameChar(r[i])
    requires b == [] || IsNameChar(b[0])
    ensures SkipRun(r + b) == b
  {
    if r != [] {
      ConsTail(r, b);
      SkipRunOver(r[1..], b);
    } else {
      assert r + b == b;
    }
  }

  /** Concatenation regroups. */
  lemma ConcatAssoc(a: string, b: string, c: string)
    ensures a + b + c == a + (b + c)
  {
  }

  /** A string is its prefix of length k followed by the rest. */
  lemma SplitAt(s: string, k: nat)
    requires k <= |s|
    ensures s == s[..k] + s[k..]
  {
  }

  /** The head and tail of a + u for non-empty a. */
  lemma ConsTail(a: string, u: string)
    requires a != []
    ensures (a + u)[0] == a[0] && (a + u)[1..] == a[1..] + u
  {
  }

  /** A run of replaced characters followed by a kept one (or nothing) becomes one '_'. */
  lemma ReplaceRunsRun(r: string, b: string)
    requires r != [] && forall i :: 0 <= i < |r| ==> !IsNameChar(r[i])
    requires b == [] || IsNameChar(b[0])
    ensures ReplaceRuns(r + b) == "_" + ReplaceRuns(b)
  {
    ConsTail(r, b);
    SkipRunOver(r[1..], b);
  }

  /** After a kept character no run is open: the rest is replaced on its own. */
  lemma {:induction false} ReplaceRunsAppend(a: string, u: string)
    requires a == [] || IsNameChar(a[|a| - 1])
    ensures ReplaceRuns(a + u) == ReplaceRuns(a) + ReplaceRuns(u)
    decreases |a|
  {
    if a == [] {
      assert a + u == u;
    } else if IsNameChar(a[0]) {
      ConsTail(a, u);
      ReplaceRunsAppend(a[1..], u);
      ConcatAssoc([a[0]], ReplaceRuns(a[1..]), ReplaceRuns(u));
    } else {
      ConsTail(a, u);
      SkipRunAppend(a[1..], u);
      ReplaceRunsAppend(SkipRun(a[1..]), u);
      ConcatAssoc("_", ReplaceRuns(SkipRun(a[1..])), ReplaceRuns(u));
    }
  }

  /**
   * A maximal run r of replaced characters, between a and b, becomes exactly
   * one '_', and the two sides are replaced independently.
   */
  lemma ReplaceRunsSplit(a: string, r: string, b: string)
    requires a == [] || IsNameChar(a[|a| - 1])
    requires r != [] && forall i :: 0 <= i < |r| ==> !IsNameChar(r[i])
    requires b == [] || IsNameChar(b[0])
    ensures ReplaceRuns(a + r + b) == ReplaceRuns(a) + "_" + ReplaceRuns(b)
  {
    ConcatAssoc(a, r, b);
    ReplaceRunsAppend(a, r + b);
    ReplaceRunsRun(r, b);
    ConcatAssoc(ReplaceRuns(a), "_", ReplaceRuns(b));
  }

  /** sanitizeName; date('Ymd_His') is passed in as stamp. */
  function SanitizeName(name: string, stamp: string): (r: string)
    ensures IsStamp(stamp) ==> IsSafeName(r)
    ensures IsSafeName(name) ==> r == name
    ensures IsSafeName(ReplaceRuns(name)) ==> r == ReplaceRuns(name)
  {
    var r := ReplaceRuns(name);
    if r == "" || r == "." || r == ".." then FallbackName(stamp) else r
  }

  /**
   * Sanitizing an already sanitized name changes nothing, whatever the clock
   * says the second time (upload_chunk.php:59 sanitizes the name again).
   */
  lemma SanitizeIdempotent(name: string, stamp: string, later: string)
    requires IsStamp(stamp)
    ensures SanitizeName(SanitizeName(name, stamp), later) == SanitizeName(name, stamp)
  {
  }

  /** sanitizeName returns its argument unchanged exactly when the argument is already safe. */
  lemma SanitizeFixedPoint(name: string, stamp: string)
    requires IsStamp(stamp)
    ensures SanitizeName(name, stamp) == name <==> IsSafeName(name)
  {
  }

  // ---------------------------------------------------------------------
  // Staged chunk names and the probe pattern (upload_chunk.php:34, 53, 115)

  /** The largest value PHP's intval returns on a 64-bit build; larger digit strings saturate. */
  const PhpIntMax: int := 0x7FFF_FFFF_FFFF_FFFF

  /** The values PHP's intval can return. */
  type PhpInt = x: int | -PhpIntMax - 1 <= x <= PhpIntMax

  /** intval of a string of decimal digits. */
  function IntValDigits(d: string): (v: nat)
    requires AllDigits(d)
    ensures v <= PhpIntMax
    ensures ParseDigits(d) <= PhpIntMax ==> v == ParseDigits(d)
    ensures ParseDigits(d) > PhpIntMax ==> v == PhpIntMax
  {
    if ParseDigits(d) <= PhpIntMax then ParseDigits(d) else PhpIntMax
  }

  /** "<name>.part<i>", the entry a chunk is stored under. */
  function PartName(name: string, i: nat): string {
    name + ".part" + NatToString(i)
  }

  /** Different names or indices give different part names. */
  lemma PartNameInjective(a: string, i: nat, b: string, j: nat)
    ensures PartName(a, i) == PartName(b, j) ==> a == b && i == j
  {
    if PartName(a, i) == PartName(b, j) {
      TrailingDigitsOf(a + ".part", NatToString(i));
      TrailingDigitsOf(b + ".part", NatToString(j));
      NatToStringInjective(i, j);
      var n := PartName(a, i);
      assert n[..|a|] == a && n[..|b|] == b;
    }
  }

  /** The maximal run of digits at the end of s. */
  function TrailingDigits(s: string): (d: string)
    ensures AllDigits(d) && |d| <= |s| && d == s[|s| - |d|..]
    ensures |d| < |s| ==> !IsDigit(s[|s| - |d| - 1])
  {
    if s == [] || !IsDigit(s[|s| - 1]) then []
    else
      var init := s[..|s| - 1];
      var d0 := TrailingDigits(init);
      assert init[|init| - |d0|..] + [s[|s| - 1]] == s[|s| - |d0| - 1..];
      assert |d0| < |init| ==> init[|init| - |d0| - 1] == s[|s| - |d0| - 2];
      d0 + [s[|s| - 1]]
  }

  /** The maximal run of digits at the end is unique: a non-digit (or nothing) followed by digits d has d as that run. */
  lemma TrailingDigitsOf(p: string, d: string)
    requires AllDigits(d)
    requires p == [] || !IsDigit(p[|p| - 1])
    ensures TrailingDigits(p + d) == d
  {
    var q := p + d;
    assert q[|q| - |d|..] == d;
  }

  /**
   * The probe's preg_match('/\.part(\d+)$/', f, m) followed by intval(m[1]).
   * Without the D modifier, '$' also matches just before a final newline.
   */
  function PartIndex(f: string): Option<nat> {
    var g := if |f| > 0 && f[|f| - 1] == '\n' then f[..|f| - 1] else f;
    var d := TrailingDigits(g);
    var p := g[..|g| - |d|];
    if |d| > 0 && |p| >= 5 && p[|p| - 5..] == ".part" then Some(IntValDigits(d)) else None
  }

  /** An entry "<stem>.part<d>", with one final newline when nl. */
  function PartEntryName(stem: string, d: string, nl: bool): string {
    stem + ".part" + d + (if nl then "\n" else "")
  }

  /** Every name "<stem>.part<digits>" (optionally with one final newline) matches the pattern. */
  lemma PartIndexMatches(stem: string, d: string, newline: bool)
    requires AllDigits(d) && d != []
    ensures PartIndex(PartEntryName(stem, d, newline)) == Some(IntValDigits(d))
  {
    var g := stem + ".part" + d;
    var f := g + (if newline then "\n" else "");
    assert g[|g| - 1] == d[|d| - 1];
    assert (if |f| > 0 && f[|f| - 1] == '\n' then f[..|f| - 1] else f) == g;
    TrailingDigitsOf(stem + ".part", d);
    var p := g[..|g| - |d|];
    assert p == stem + ".part";
    assert p[|p| - 5..] == ".part";
  }

  /** The probe reads back exactly the index a chunk was stored under. */
  lemma PartIndexOfPartName(name: string, i: nat)
    requires i <= PhpIntMax
    ensures PartIndex(PartName(name, i)) == Some(i)
  {
    PartIndexMatches(name, NatToString(i), false);
    assert name + ".part" + NatToString(i) + "" == PartName(name, i);
    ParseNatToString(i);
  }

  /**
   * Only such names match: an entry the pattern accepts is "<stem>.part<digits>",
   * with at most one final newline, and is read as intval of those digits.
   */
  lemma PartIndexOnlyParts(f: string)
    requires PartIndex(f).Some?
    ensures exists stem, d, nl ::
      (AllDigits(d) && d != [] && f == PartEntryName(stem, d, nl) && PartIndex(f).value == IntValDigits(d))
  {
    var nl := |f| > 0 && f[|f| - 1] == '\n';
    var g := if nl then f[..|f| - 1] else f;
    var tail := if nl then "\n" else "";
    if nl {
      SplitAt(f, |f| - 1);
    }
    assert f == g + tail;
    var d := TrailingDigits(g);
    var p := g[..|g| - |d|];
    SplitAt(g, |g| - |d|);
    var stem := p[..|p| - 5];
    SplitAt(p, |p| - 5);
    assert p == stem + ".part";
    assert f == stem + ".part" + d + tail;
    assert f == PartEntryName(stem, d, nl);
  }

  /** A name whose last character is neither a digit nor a newline never matches. */
  lemma PartIndexNeedsDigits(f: string)
    requires f != [] && !IsDigit(f[|f| - 1]) && f[|f| - 1] != '\n'
    ensures PartIndex(f) == None
  {
  }

  // ---------------------------------------------------------------------
  // Collision-free output names (upload_chunk.php:59-67)

  /** pathinfo's filename and extension, as a split at the last dot. */
  function PathParts(name: string): (r: (string, Option<string>))
    ensures r.1.None? ==> r.0 == name && '.' !in name
    ensures r.1.Some? ==> name == r.0 + "." + r.1.value && '.' !in r.1.value
  {
    match SplitLast(name, '.')
    case None => (name, None)
    case Some((stem, ext)) => (stem, Some(ext))
  }

  function ExtSuffix(ext: Option<string>): string {
    if ext.Some? then "." + ext.value else ""
  }

  /** The k-th name tried when name is taken: "<filename>_<k>" plus ".<extension>" if there is one. */
  function Candidate(name: string, k: nat): string {
    var (stem, ext) := PathParts(name);
    stem + "_" + NatToString(k) + ExtSuffix(ext)
  }

  /** A candidate is always longer than the name it is made from, so it never equals it. */
  lemma CandidateLonger(name: string, k: nat)
    ensures |Candidate(name, k)| > |name|
  {
  }

  lemma CandidateInjective(name: string, j: nat, k: nat)
    ensures Candidate(name, j) == Candidate(name, k) ==> j == k
  {
    var (stem, ext) := PathParts(name);
    var p, x := stem + "_", ExtSuffix(ext);
    var cj, ck := Candidate(name, j), Candidate(name, k);
    if cj == ck {
      var dj, dk := NatToString(j), NatToString(k);
      assert cj == p + dj + x && ck == p + dk + x;
      assert |dj| == |dk|;
      assert dj == cj[|p|..|p| + |dj|];
      assert dk == ck[|p|..|p| + |dk|];
      NatToStringInjective(j, k);
    }
  }

  /** Candidates of a sanitized name are sanitized names as well. */
  lemma CandidateIsSafe(name: string, k: nat)
    requires AllNameChars(name)
    ensures IsSafeName(Candidate(name, k))
  {
    var (stem, ext) := PathParts(name);
    var c := Candidate(name, k);
    assert c[|stem|] == '_';
    assert forall i :: 0 <= i < |stem| ==> stem[i] == name[i];
    if ext.Some? {
      assert forall i :: 0 <= i < |ext.value| ==> ext.value[i] == name[|stem| + 1 + i];
    }
    var d := NatToString(k);
    assert forall i :: 0 <= i < |c| ==> IsNameChar(c[i]) by {
      forall i | 0 <= i < |c| ensures IsNameChar(c[i]) {
        if i < |stem| {
        } else if i == |stem| {
        } else if i < |stem| + 1 + |d| {
          assert c[i] == d[i - |stem| - 1];
        } else {
          assert ext.Some?;
          assert c[i] == ExtSuffix(ext)[i - |stem| - 1 - |d|];
        }
      }
    }
  }

  // ---------------------------------------------------------------------
  // rawurlencode (upload_chunk.php:88)

  /** The characters rawurlencode leaves as they are. */
  predicate IsUnreserved(c: char) { IsWordChar(c) || c == '-' || c == '.' || c == '~' }

  /** The number of UTF-8 bytes of code point u: the shortest form. */
  function Utf8Length(u: int): nat {
    if u < 0x80 then 1 else if u < 0x800 then 2 else if u < 0x1_0000 then 3 else 4
  }

  /** A UTF-8 continuation byte, 10xxxxxx. */
  predicate IsContinuation(b: int) { 0x80 <= b < 0xC0 }

  /** The code point a well-formed 1 to 4 byte UTF-8 sequence stands for. */
  function Utf8Decode(bs: seq<int>): int
    requires 1 <= |bs| <= 4
  {
    if |bs| == 1 then bs[0]
    else if |bs| == 2 then (bs[0] - 0xC0) * 0x40 + (bs[1] - 0x80)
    else if |bs| == 3 then (bs[0] - 0xE0) * 0x1000 + (bs[1] - 0x80) * 0x40 + (bs[2] - 0x80)
    else (bs[0] - 0xF0) * 0x4_0000 + (bs[1] - 0x80) * 0x1000 + (bs[2] - 0x80) * 0x40 + (bs[3] - 0x80)
  }

  /**
   * The UTF-8 bytes of a character: the shortest form, a lead byte tagged
   * with the length (0xxxxxxx, 110xxxxx, 1110xxxx, 11110xxx) and then
   * continuation bytes.
   */
  function Utf8(c: char): (bs: seq<int>)
    ensures 1 <= |bs| <= 4 && |bs| == Utf8Length(c as int)
    ensures forall i :: 0 <= i < |bs| ==> 0 <= bs[i] < 256
    ensures c as int < 0x80 <==> bs == [c as int]
    ensures |bs| == 2 ==> 0xC0 <= bs[0] < 0xE0
    ensures |bs| == 3 ==> 0xE0 <= bs[0] < 0xF0
    ensures |bs| == 4 ==> 0xF0 <= bs[0] < 0xF5
    ensures forall i :: 1 <= i < |bs| ==> IsContinuation(bs[i])
  {
    var u := c as int;
    if u < 0x80 then [u]
    else if u < 0x800 then [0xC0 + u / 0x40, 0x80 + u % 0x40]
    else if u < 0x1_0000 then [0xE0 + u / 0x1000, 0x80 + (u / 0x40) % 0x40, 0x80 + u % 0x40]
    else [0xF0 + u / 0x4_0000, 0x80 + (u / 0x1000) % 0x40, 0x80 + (u / 0x40) % 0x40, 0x80 + u % 0x40]
  }

  /** The uppercase hexadecimal digit of d. */
  function HexDigit(d: int): (c: char)
    requires 0 <= d < 16
    ensures d < 10 ==> c as int == '0' as int + d
    ensures d >= 10 ==> c as int == 'A' as int + (d - 10)
  {
    "0123456789ABCDEF"[d]
  }

  function PercentEncode(bs: seq<int>): (r: string)
    requires forall i :: 0 <= i < |bs| ==> 0 <= bs[i] < 256
    ensures |r| == 3 * |bs|
  {
    if bs == [] then []
    else ['%', HexDigit(bs[0] / 16), HexDigit(bs[0] % 16)] + PercentEncode(bs[1..])
  }

  /** Byte i of bs becomes the three characters at 3 * i: '%' and its two hex digits. */
  lemma {:induction false} PercentEncodeAt(bs: seq<int>)
    requires forall i :: 0 <= i < |bs| ==> 0 <= bs[i] < 256
    ensures forall i :: 0 <= i < |bs| ==>
      PercentEncode(bs)[3 * i..3 * i + 3] == ['%', HexDigit(bs[i] / 16), HexDigit(bs[i] % 16)]
  {
    if bs != [] {
      PercentEncodeAt(bs[1..]);
      var r := PercentEncode(bs);
      var t := PercentEncode(bs[1..]);
      assert r == ['%', HexDigit(bs[0] / 16), HexDigit(bs[0] % 16)] + t;
      forall i | 1 <= i < |bs|
        ensures r[3 * i..3 * i + 3] == ['%', HexDigit(bs[i] / 16), HexDigit(bs[i] % 16)]
      {
        assert r[3 * i..3 * i + 3] == t[3 * (i - 1)..3 * (i - 1) + 3];
      }
    }
  }

  /** Decoding the UTF-8 bytes of a character gives back its code point. */
  lemma Utf8RoundTrip(c: char)
    ensures Utf8Decode(Utf8(c)) == c as int
  {
    var u := c as int;
    assert u == (u / 0x40) * 0x40 + u % 0x40;
    assert u / 0x40 == (u / 0x1000) * 0x40 + (u / 0x40) % 0x40;
    assert u / 0x1000 == (u / 0x4_0000) * 0x40 + (u / 0x1000) % 0x40;
  }

  function RawUrlEncode(s: string): string {
    if s == [] then []
    else (if IsUnreserved(s[0]) then [s[0]] else PercentEncode(Utf8(s[0]))) + RawUrlEncode(s[1..])
  }

  /** A sanitized name needs no escaping. */
  lemma {:induction false} RawUrlEncodeOfNameChars(s: string)
    requires AllNameChars(s)
    ensures RawUrlEncode(s) == s
  {
    if s != [] {
      RawUrlEncodeOfNameChars(s[1..]);
    }
  }

  /**
   * Every other character is escaped: each of its UTF-8 bytes becomes '%'
   * and two uppercase hex digits.
   */
  lemma EscapedChar(c: char)
    requires !IsUnreserved(c)
    ensures |RawUrlEncode([c])| >= 3 && RawUrlEncode([c])[0] == '%'
    ensures |RawUrlEncode([c])| == 3 * |Utf8(c)|
    ensures forall i :: 0 <= i < |Utf8(c)| ==>
      RawUrlEncode([c])[3 * i..3 * i + 3] == ['%', HexDigit(Utf8(c)[i] / 16), HexDigit(Utf8(c)[i] % 16)]
  {
    assert RawUrlEncode([c]) == PercentEncode(Utf8(c)) + RawUrlEncode([]);
    PercentEncodeAt(Utf8(c));
  }
}

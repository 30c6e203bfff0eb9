/**
 * Class `Str`: the case-sensitive prefix and suffix tests, first and last
 * replacement, truncation and the URL-safe base64 alphabet.
 *
 * The byte-level helpers are generic over the element type, so that a PHP
 * string can be read as a sequence of bytes; `Limit` counts characters, as the
 * `mb_*` functions it calls do.
 */
module Str {
  import opened Wrappers

  function Min(a: int, b: int): int {
    if a <= b then a else b
  }

  function Max(a: int, b: int): int {
    if a <= b then b else a
  }

  // ---------------------------------------------------------------- startsWith / endsWith

  /**
   * `strncmp($a, $b, $n) === 0`: the common part of the first n elements
   * agrees and both strings have the same length once cut at n.
   */
  predicate NCmpEqual<T(==)>(a: seq<T>, b: seq<T>, n: nat) {
    var m := Min(n, Min(|a|, |b|));
    && a[..m] == b[..m]
    && Min(n, |a|) == Min(n, |b|)
  }

  /** `Str::startsWith($string, $with)` with `$caseSensitive` true. */
  function StartsWith<T(==)>(s: seq<T>, w: seq<T>): (r: bool)
    ensures r <==> w <= s
  {
    if |w| == 0 then true
    else
      var r := NCmpEqual(s, w, |w|);
      assert r ==> s[..|w|] == w;
      r
  }

  /** `Str::endsWith($string, $with)` with `$caseSensitive` true. */
  function EndsWith<T(==)>(s: seq<T>, w: seq<T>): (r: bool)
    ensures r <==> |w| <= |s| && s[|s| - |w|..] == w
  {
    if |w| == 0 then true
    else if |s| < |w| then false
    else NCmpEqual(s[|s| - |w|..], w, |w|)
  }

  function Reverse<T>(s: seq<T>): (r: seq<T>)
    ensures |r| == |s|
    ensures forall i :: 0 <= i < |s| ==> r[i] == s[|s| - 1 - i]
  {
    if |s| == 0 then [] else Reverse(s[1..]) + [s[0]]
  }

  /** A suffix test is a prefix test on the reversed strings. */
  lemma EndsWithReverse<T>(s: seq<T>, w: seq<T>)
    ensures EndsWith(s, w) == StartsWith(Reverse(s), Reverse(w))
  {
    var rs, rw := Reverse(s), Reverse(w);
    if rw <= rs {
      assert |w| <= |s|;
      forall i | 0 <= i < |w|
        ensures s[|s| - |w|..][i] == w[i]
      {
        assert rs[|w| - 1 - i] == rw[|w| - 1 - i];
      }
    }
    if |w| <= |s| && s[|s| - |w|..] == w {
      forall i | 0 <= i < |w|
        ensures rs[i] == rw[i]
      {
        assert s[|s| - |w|..][|w| - 1 - i] == w[|w| - 1 - i];
      }
    }
  }

  // ---------------------------------------------------------------- strpos / strrpos

  /** `w` occurs in `s` starting at `p`. */
  predicate OccursAt<T(==)>(s: seq<T>, w: seq<T>, p: int) {
    0 <= p && p + |w| <= |s| && s[p..p + |w|] == w
  }

  ghost predicate IsFirstOccurrence<T>(s: seq<T>, w: seq<T>, p: int) {
    OccursAt(s, w, p) && forall q :: 0 <= q < p ==> !OccursAt(s, w, q)
  }

  ghost predicate IsLastOccurrence<T>(s: seq<T>, w: seq<T>, p: int) {
    OccursAt(s, w, p) && forall q :: p < q ==> !OccursAt(s, w, q)
  }

  function FindFrom<T(==)>(s: seq<T>, w: seq<T>, i: nat): (r: Option<nat>)
    requires i <= |s| + 1
    ensures r.Some? ==> i <= r.value && OccursAt(s, w, r.value)
    ensures r.Some? ==> forall q :: i <= q < r.value ==> !OccursAt(s, w, q)
    ensures r.None? ==> forall q :: i <= q ==> !OccursAt(s, w, q)
    decreases |s| + 1 - i
  {
    if i + |w| > |s| then None
    else if s[i..i + |w|] == w then Some(i)
    else FindFrom(s, w, i + 1)
  }

  /** `strpos($s, $w)`: the first occurrence, or false (None). An empty needle is found at 0. */
  function FindFirst<T(==)>(s: seq<T>, w: seq<T>): (r: Option<nat>)
    ensures r.Some? ==> IsFirstOccurrence(s, w, r.value)
    ensures r.None? ==> forall q :: !OccursAt(s, w, q)
  {
    FindFrom(s, w, 0)
  }

  function FindDownFrom<T(==)>(s: seq<T>, w: seq<T>, i: int): (r: Option<nat>)
    requires i <= |s|
    ensures r.Some? ==> r.value <= i && OccursAt(s, w, r.value)
    ensures r.Some? ==> forall q :: r.value < q <= i ==> !OccursAt(s, w, q)
    ensures r.None? ==> forall q :: q <= i ==> !OccursAt(s, w, q)
    decreases i + 1
  {
    if i < 0 then None
    else if i + |w| <= |s| && s[i..i + |w|] == w then Some(i)
    else FindDownFrom(s, w, i - 1)
  }

  /**
   * `strrpos($s, $w)`: the last occurrence, or false (None). Since PHP 8 an
   * empty needle is found at the end of the string.
   */
  function FindLast<T(==)>(s: seq<T>, w: seq<T>): (r: Option<nat>)
    ensures r.Some? ==> IsLastOccurrence(s, w, r.value)
    ensures r.None? ==> forall q :: !OccursAt(s, w, q)
  {
    FindDownFrom(s, w, |s|)
  }

  lemma EmptyNeedleFound<T>(s: seq<T>)
    ensures FindFirst(s, []) == Some(0)
    ensures FindLast(s, []) == Some(|s|)
  {
    assert OccursAt(s, [], 0);
    assert OccursAt(s, [], |s|);
  }

  // ---------------------------------------------------------------- replaceFirst / replaceLast

  /** `substr_replace($s, $r, $p, $n)` with an offset and length inside the string. */
  function Splice<T>(s: seq<T>, r: seq<T>, p: nat, n: nat): seq<T>
    requires p + n <= |s|
  {
    s[..p] + r + s[p + n..]
  }

  /** `Str::replaceFirst($search, $replace, $subject)`. */
  function ReplaceFirst<T(==)>(search: seq<T>, replace: seq<T>, subject: seq<T>): (r: seq<T>)
    ensures |search| == 0 ==> r == subject
    ensures (forall q :: !OccursAt(subject, search, q)) ==> r == subject
    ensures forall p :: |search| > 0 && IsFirstOccurrence(subject, search, p) ==>
      r == subject[..p] + replace + subject[p + |search|..]
    ensures |search| > 0 && (exists p :: OccursAt(subject, search, p)) ==> |r| == |subject| - |search| + |replace|
  {
    if |search| == 0 then subject
    else
      match FindFirst(subject, search)
      case Some(p) => Splice(subject, replace, p, |search|)
      case None => subject
  }

  /**
   * `Str::replaceLast($search, $replace, $subject)` as written: there is no
   * guard for an empty search, and `strrpos` then answers the end of the
   * subject, so `replace` is appended.
   */
  function ReplaceLastAsWritten<T(==)>(search: seq<T>, replace: seq<T>, subject: seq<T>): (r: seq<T>)
    ensures (forall q :: !OccursAt(subject, search, q)) ==> r == subject
    ensures forall p :: IsLastOccurrence(subject, search, p) ==>
      r == subject[..p] + replace + subject[p + |search|..]
  {
    match FindLast(subject, search)
    case Some(p) => Splice(subject, replace, p, |search|)
    case None => subject
  }

  /** `Str::replaceLast` with the empty-search guard `replaceFirst` has. */
  function ReplaceLast<T(==)>(search: seq<T>, replace: seq<T>, subject: seq<T>): (r: seq<T>)
    ensures |search| == 0 ==> r == subject
    ensures (forall q :: !OccursAt(subject, search, q)) ==> r == subject
    ensures forall p :: |search| > 0 && IsLastOccurrence(subject, search, p) ==>
      r == subject[..p] + replace + subject[p + |search|..]
    ensures |search| > 0 && (exists p :: OccursAt(subject, search, p)) ==> |r| == |subject| - |search| + |replace|
  {
    if |search| == 0 then subject else ReplaceLastAsWritten(search, replace, subject)
  }

  /** As written, an empty search appends `replace`, where `replaceFirst` leaves the subject alone. */
  lemma ReplaceLastEmptySearchAppends<T>(replace: seq<T>, subject: seq<T>)
    ensures ReplaceLastAsWritten([], replace, subject) == subject + replace
    ensures ReplaceFirst([], replace, subject) == subject
  {
    EmptyNeedleFound(subject);
    calc {
      ReplaceLastAsWritten([], replace, subject);
      Splice(subject, replace, |subject|, 0);
      subject[..|subject|] + replace + subject[|subject|..];
      { assert subject[..|subject|] == subject && subject[|subject|..] == []; }
      subject + replace;
    }
  }

  lemma ReplaceLastCounterexample()
    ensures ReplaceLastAsWritten("", "x", "ab") == "abx"
    ensures ReplaceLast("", "x", "ab") == "ab"
    ensures ReplaceFirst("", "x", "ab") == "ab"
  {
    ReplaceLastEmptySearchAppends("x", "ab");
  }

  /** With a single occurrence, replacing the first and the last one agree. */
  lemma ReplaceFirstLastSingle<T>(search: seq<T>, replace: seq<T>, subject: seq<T>, p: int)
    requires OccursAt(subject, search, p)
    requires forall q :: q != p ==> !OccursAt(subject, search, q)
    ensures ReplaceFirst(search, replace, subject) == ReplaceLast(search, replace, subject)
  {
    assert IsFirstOccurrence(subject, search, p);
    assert IsLastOccurrence(subject, search, p);
  }

  /** Writing an occurrence over itself changes nothing. */
  lemma SpliceSelf<T>(s: seq<T>, w: seq<T>, p: int)
    requires OccursAt(s, w, p)
    ensures Splice(s, w, p, |w|) == s
  {
    assert s == s[..p] + s[p..p + |w|] + s[p + |w|..];
  }

  /** Replacing the first occurrence by itself gives back the subject. */
  lemma ReplaceFirstSelf<T>(search: seq<T>, subject: seq<T>)
    ensures ReplaceFirst(search, search, subject) == subject
  {
    var f := FindFirst(subject, search);
    if |search| > 0 && f.Some? {
      SpliceSelf(subject, search, f.value);
    }
  }

  /** Replacing the last occurrence by itself gives back the subject. */
  lemma ReplaceLastSelf<T>(search: seq<T>, subject: seq<T>)
    ensures ReplaceLast(search, search, subject) == subject
  {
    var l := FindLast(subject, search);
    if |search| > 0 && l.Some? {
      SpliceSelf(subject, search, l.value);
    }
  }

  // ---------------------------------------------------------------- limit

  /** The characters `rtrim` strips when given no character list. */
  predicate IsTrimChar(c: char) {
    c == ' ' || c == '\t' || c == '\n' || c == '\r' || c == '\0' || c == 11 as char
  }

  /** `t` is `s` with its trailing run of trim characters removed. */
  ghost predicate IsRightTrimmed(t: string, s: string) {
    && t <= s
    && (|t| == 0 || !IsTrimChar(t[|t| - 1]))
    && forall i :: |t| <= i < |s| ==> IsTrimChar(s[i])
  }

  /** `rtrim($s)`. */
  function RTrim(s: string): (r: string)
    ensures IsRightTrimmed(r, s)
  {
    if |s| == 0 || !IsTrimChar(s[|s| - 1]) then s else RTrim(s[..|s| - 1])
  }

  /** Only one string is `s` right-trimmed, so `RTrim` is the only possible answer. */
  lemma {:induction false} RightTrimmedUnique(t: string, u: string, s: string)
    requires IsRightTrimmed(t, s) && IsRightTrimmed(u, s)
    ensures t == u
  {
  }

  lemma RTrimIdempotent(s: string)
    ensures RTrim(RTrim(s)) == RTrim(s)
  {
    var t := RTrim(s);
    assert IsRightTrimmed(t, t);
    RightTrimmedUnique(RTrim(t), t, t);
  }

  /**
   * How many characters `mb_substr($s, 0, $length)` keeps: a negative length
   * drops that many characters from the end.
   */
  function KeptLength(n: nat, length: int): (k: nat)
    ensures k <= n
    ensures length >= 0 ==> k == Min(n, length)
    ensures length < 0 ==> k + Min(n, -length) == n
  {
    if length >= 0 then Min(n, length) else Max(0, n + length)
  }

  /** `Str::limit($string, $length, $suffix)`. */
  function Limit(s: string, length: int, suffix: string): (r: string)
    ensures |s| <= length ==> r == s
    ensures |s| > length ==>
      && |suffix| <= |r|
      && r[|r| - |suffix|..] == suffix
      && IsRightTrimmed(r[..|r| - |suffix|], s[..KeptLength(|s|, length)])
  {
    if |s| > length then
      var t := RTrim(s[..KeptLength(|s|, length)]);
      assert (t + suffix)[..|t|] == t;
      t + suffix
    else s
  }

  /** Truncation to a non-negative length keeps at most that many characters before the suffix. */
  lemma LimitLength(s: string, length: int, suffix: string)
    requires length >= 0
    ensures |Limit(s, length, suffix)| <= Max(|s|, length + |suffix|)
    ensures |s| > length ==> |Limit(s, length, suffix)| <= length + |suffix|
  {
  }

  /** Truncating without a suffix a second time changes nothing. */
  lemma LimitIdempotent(s: string, length: int)
    requires length >= 0
    ensures Limit(Limit(s, length, ""), length, "") == Limit(s, length, "")
  {
    LimitLength(s, length, "");
  }

  // ---------------------------------------------------------------- base64

  /** A character of the standard alphabet of section 4 of RFC 4648. */
  predicate IsStdChar(c: char) {
    ('A' <= c <= 'Z') || ('a' <= c <= 'z') || ('0' <= c <= '9') || c == '+' || c == '/'
  }

  /** A character of the URL and filename safe alphabet of section 5 of RFC 4648. */
  predicate IsUrlChar(c: char) {
    ('A' <= c <= 'Z') || ('a' <= c <= 'z') || ('0' <= c <= '9') || c == '-' || c == '_'
  }

  /** A byte of a PHP string. */
  type Byte = x: int | 0 <= x < 256

  /** A 6-bit group, the value one base64 character carries. */
  type Sextet = x: int | 0 <= x < 64

  function EncodeSextet(x: Sextet): (c: char)
    ensures IsStdChar(c)
  {
    if x < 26 then ('A' as int + x) as char
    else if x < 52 then ('a' as int + x - 26) as char
    else if x < 62 then ('0' as int + x - 52) as char
    else if x == 62 then '+'
    else '/'
  }

  function DecodeSextet(c: char): (x: Sextet)
    requires IsStdChar(c)
    ensures EncodeSextet(x) == c
  {
    if 'A' <= c <= 'Z' then c as int - 'A' as int
    else if 'a' <= c <= 'z' then c as int - 'a' as int + 26
    else if '0' <= c <= '9' then c as int - '0' as int + 52
    else if c == '+' then 62
    else 63
  }

  /** Each character of the alphabet stands for one 6-bit group. */
  lemma SextetRoundTrip(x: Sextet)
    ensures DecodeSextet(EncodeSextet(x)) == x
  {
  }

  /** Three bytes, as 24 bits, cut into four 6-bit groups, most significant first. */
  function Sextets(b0: Byte, b1: Byte, b2: Byte): (Sextet, Sextet, Sextet, Sextet) {
    (b0 / 4, (b0 % 4) * 16 + b1 / 16, (b1 % 16) * 4 + b2 / 64, b2 % 64)
  }

  /** Four 6-bit groups, as 24 bits, cut into three bytes. */
  function Octets(s0: Sextet, s1: Sextet, s2: Sextet, s3: Sextet): (Byte, Byte, Byte) {
    (s0 * 4 + s1 / 16, (s1 % 16) * 16 + s2 / 4, (s2 % 4) * 64 + s3)
  }

  lemma GroupRoundTrip(b0: Byte, b1: Byte, b2: Byte)
    ensures var (s0, s1, s2, s3) := Sextets(b0, b1, b2);
      Octets(s0, s1, s2, s3) == (b0, b1, b2)
  {
    var s1 := (b0 % 4) * 16 + b1 / 16;
    assert s1 / 16 == b0 % 4 && s1 % 16 == b1 / 16;
    var s2 := (b1 % 16) * 4 + b2 / 64;
    assert s2 / 4 == b1 % 16 && s2 % 4 == b2 / 64;
  }

  function EncodeGroup(b0: Byte, b1: Byte, b2: Byte): (r: string)
    ensures |r| == 4 && forall i :: 0 <= i < 4 ==> IsStdChar(r[i])
  {
    var (s0, s1, s2, s3) := Sextets(b0, b1, b2);
    [EncodeSextet(s0), EncodeSextet(s1), EncodeSextet(s2), EncodeSextet(s3)]
  }

  /**
   * `base64_encode`: each three bytes become four characters; a final group of
   * one or two bytes is padded with zero bits and `=`.
   */
  function Base64Encode(b: seq<Byte>): (r: string)
    ensures |r| == 4 * ((|b| + 2) / 3)
    ensures forall i :: 0 <= i < |r| ==> IsStdChar(r[i]) || r[i] == '='
  {
    if |b| == 0 then ""
    else if |b| == 1 then EncodeGroup(b[0], 0, 0)[..2] + "=="
    else if |b| == 2 then EncodeGroup(b[0], b[1], 0)[..3] + "="
    else
      var g, rest := EncodeGroup(b[0], b[1], b[2]), Base64Encode(b[3..]);
      assert (|b| + 2) / 3 == 1 + (|b[3..]| + 2) / 3;
      g + rest
  }

  /**
   * Decoding of well-formed standard base64: groups of four alphabet
   * characters, the last of which may end in `=` or `==`. Anything else is
   * None.
   */
  function Base64Decode(s: string): (r: Option<seq<Byte>>)
    decreases |s|
  {
    if |s| == 0 then Some([])
    else if |s| < 4 || !IsStdChar(s[0]) || !IsStdChar(s[1]) then None
    else if |s| == 4 && s[2] == '=' && s[3] == '=' then
      var (b0, _, _) := Octets(DecodeSextet(s[0]), DecodeSextet(s[1]), 0, 0);
      Some([b0])
    else if !IsStdChar(s[2]) then None
    else if |s| == 4 && s[3] == '=' then
      var (b0, b1, _) := Octets(DecodeSextet(s[0]), DecodeSextet(s[1]), DecodeSextet(s[2]), 0);
      Some([b0, b1])
    else if !IsStdChar(s[3]) then None
    else
      var (b0, b1, b2) := Octets(DecodeSextet(s[0]), DecodeSextet(s[1]), DecodeSextet(s[2]), DecodeSextet(s[3]));
      match Base64Decode(s[4..])
      case Some(rest) => Some([b0, b1, b2] + rest)
      case None => None
  }

  /** The characters of an encoded group decode to its 6-bit groups. */
  lemma GroupChars(b0: Byte, b1: Byte, b2: Byte)
    ensures var g := EncodeGroup(b0, b1, b2);
      var (s0, s1, s2, s3) := Sextets(b0, b1, b2);
      DecodeSextet(g[0]) == s0 && DecodeSextet(g[1]) == s1 && DecodeSextet(g[2]) == s2 && DecodeSextet(g[3]) == s3
  {
    var (s0, s1, s2, s3) := Sextets(b0, b1, b2);
    SextetRoundTrip(s0);
    SextetRoundTrip(s1);
    SextetRoundTrip(s2);
    SextetRoundTrip(s3);
  }

  /** A final group of one byte decodes to that byte. */
  lemma DecodeOne(b: seq<Byte>)
    requires |b| == 1
    ensures Base64Decode(Base64Encode(b)) == Some(b)
  {
    var b0 := b[0];
    assert Base64Encode(b) == EncodeGroup(b0, 0, 0)[..2] + "==";
    assert b == [b0];
    GroupChars(b0, 0, 0);
    GroupRoundTrip(b0, 0, 0);
    var g := EncodeGroup(b0, 0, 0)[..2] + "==";
    assert |g| == 4 && g[2] == '=' && g[3] == '=';
    assert IsStdChar(g[0]) && IsStdChar(g[1]);
  }

  /** A final group of two bytes decodes to those bytes. */
  lemma DecodeTwo(b: seq<Byte>)
    requires |b| == 2
    ensures Base64Decode(Base64Encode(b)) == Some(b)
  {
    var b0, b1 := b[0], b[1];
    assert Base64Encode(b) == EncodeGroup(b0, b1, 0)[..3] + "=";
    assert b == [b0, b1];
    GroupChars(b0, b1, 0);
    GroupRoundTrip(b0, b1, 0);
    var g := EncodeGroup(b0, b1, 0)[..3] + "=";
    assert |g| == 4 && g[2] != '=' && g[3] == '=';
    assert IsStdChar(g[0]) && IsStdChar(g[1]) && IsStdChar(g[2]);
  }

  /** A full group followed by more text decodes to its three bytes followed by the rest. */
  lemma DecodeThree(b: seq<Byte>, rest: string)
    requires |b| >= 3
    ensures Base64Decode(EncodeGroup(b[0], b[1], b[2]) + rest) ==
      match Base64Decode(rest)
      case Some(t) => Some(b[..3] + t)
      case None => None
  {
    GroupChars(b[0], b[1], b[2]);
    GroupRoundTrip(b[0], b[1], b[2]);
    var g := EncodeGroup(b[0], b[1], b[2]) + rest;
    assert g[4..] == rest;
    assert IsStdChar(g[0]) && IsStdChar(g[1]) && IsStdChar(g[2]) && IsStdChar(g[3]);
    assert g[3] != '=' && g[2] != '=';
    assert b[..3] == [b[0], b[1], b[2]];
  }

  /** The encoding of a sequence of at least three bytes starts with the group of the first three. */
  lemma EncodeSplit(b: seq<Byte>)
    requires |b| >= 3
    ensures Base64Encode(b) == EncodeGroup(b[0], b[1], b[2]) + Base64Encode(b[3..])
  {
  }

  /** Decoding undoes encoding. */
  lemma {:induction false} Base64RoundTrip(b: seq<Byte>)
    ensures Base64Decode(Base64Encode(b)) == Some(b)
    decreases |b|
  {
    if |b| == 1 {
      DecodeOne(b);
    } else if |b| == 2 {
      DecodeTwo(b);
    } else if |b| >= 3 {
      EncodeSplit(b);
      DecodeThree(b, Base64Encode(b[3..]));
      Base64RoundTrip(b[3..]);
      assert b[..3] + b[3..] == b;
    }
  }

  /**
   * The replacement `strtr($s, $from, $to)` makes of one character: the last
   * position of it among the first min(|from|, |to|) characters of `from`
   * selects its image in `to`.
   */
  function Translate(c: char, from: string, to: string, n: nat): char
    requires n <= |from| && n <= |to|
  {
    if n == 0 then c
    else if from[n - 1] == c then to[n - 1]
    else Translate(c, from, to, n - 1)
  }

  /** `strtr($s, $from, $to)`. */
  function Strtr(s: string, from: string, to: string): (r: string)
    ensures |r| == |s|
  {
    seq(|s|, i requires 0 <= i < |s| => Translate(s[i], from, to, Min(|from|, |to|)))
  }

  /** `Str::base64UrlEncode($input)`. */
  function Base64UrlEncode(b: seq<Byte>): (r: string)
    ensures |r| == |Base64Encode(b)|
    ensures forall i :: 0 <= i < |r| ==> IsUrlChar(r[i]) || r[i] == '='
  {
    var e := Base64Encode(b);
    var r := Strtr(e, "+/", "-_");
    forall i | 0 <= i < |r|
      ensures IsUrlChar(r[i]) || r[i] == '='
    {
      TranslateTwo(e[i], "+/", "-_");
    }
    r
  }

  /** `Str::base64UrlDecode($input)`, over the decoder above. */
  function Base64UrlDecode(s: string): Option<seq<Byte>> {
    Base64Decode(Strtr(s, "-_", "+/"))
  }

  /** With two-character lists, the later position takes precedence over the earlier one. */
  lemma TranslateTwo(c: char, from: string, to: string)
    requires |from| >= 2 && |to| >= 2
    ensures Translate(c, from, to, 2) == if from[1] == c then to[1] else if from[0] == c then to[0] else c
  {
    assert Translate(c, from, to, 1) == if from[0] == c then to[0] else c;
  }

  lemma SwapBackChar(c: char)
    requires IsStdChar(c) || c == '='
    ensures Translate(Translate(c, "+/", "-_", 2), "-_", "+/", 2) == c
  {
    TranslateTwo(c, "+/", "-_");
    TranslateTwo(Translate(c, "+/", "-_", 2), "-_", "+/");
  }

  /** The two alphabet swaps undo each other on standard base64 text. */
  lemma SwapBack(e: string)
    requires forall i :: 0 <= i < |e| ==> IsStdChar(e[i]) || e[i] == '='
    ensures Strtr(Strtr(e, "+/", "-_"), "-_", "+/") == e
  {
    var u := Strtr(e, "+/", "-_");
    var back := Strtr(u, "-_", "+/");
    forall i | 0 <= i < |e|
      ensures back[i] == e[i]
    {
      assert u[i] == Translate(e[i], "+/", "-_", 2);
      assert back[i] == Translate(u[i], "-_", "+/", 2);
      SwapBackChar(e[i]);
    }
    assert back == e;
  }

  /** Decoding the URL-safe form undoes encoding it. */
  lemma Base64UrlRoundTrip(b: seq<Byte>)
    ensures Base64UrlDecode(Base64UrlEncode(b)) == Some(b)
  {
    SwapBack(Base64Encode(b));
    Base64RoundTrip(b);
  }
}

/**
 * The few JavaScript string primitives the page scripts rely on, written out
 * as ECMAScript defines them: `String.prototype.trim`, `parseInt` with no
 * radix, `String.prototype.split` with a one-character separator, `Array.join`
 * and `String.prototype.includes`.
 *
 * A JavaScript string is a sequence of UTF-16 code units. The model keeps
 * text as a `string` of Unicode characters and gives its code units by
 * `Units`: `.length`, `charAt` and `split('')` are stated over those units,
 * so a character outside the Basic Multilingual Plane counts twice and is
 * split into its two surrogates. `trim`, a split on a space or a newline,
 * and the e-mail pattern give the same answer on characters as on code
 * units, because every white-space character, `@`, `.`, space and newline is
 * a single code unit that is never part of a surrogate pair.
 */
module JsText {
  import opened Wrappers

  /** The WhiteSpace and LineTerminator characters of ECMAScript, which both
      `trim` and the regular-expression class `\s` use. */
  predicate IsWhiteSpace(c: char) {
    || c == '\t' || c == '\n' || c == '\U{0B}' || c == '\U{0C}' || c == '\r'
    || c == ' ' || c == '\U{A0}' || c == '\U{1680}'
    || ('\U{2000}' <= c <= '\U{200A}')
    || c == '\U{2028}' || c == '\U{2029}' || c == '\U{202F}' || c == '\U{205F}'
    || c == '\U{3000}' || c == '\U{FEFF}'
  }

  /** Number of white-space characters at the start of `s`. */
  function LeadingWhiteSpace(s: string): (n: nat)
    ensures n <= |s|
    ensures forall k | 0 <= k < n :: IsWhiteSpace(s[k])
    ensures n < |s| ==> !IsWhiteSpace(s[n])
  {
    if |s| > 0 && IsWhiteSpace(s[0]) then 1 + LeadingWhiteSpace(s[1..]) else 0
  }

  /** Number of white-space characters at the end of `s`. */
  function TrailingWhiteSpace(s: string): (n: nat)
    ensures n <= |s|
    ensures forall k | |s| - n <= k < |s| :: IsWhiteSpace(s[k])
    ensures n < |s| ==> !IsWhiteSpace(s[|s| - n - 1])
  {
    if |s| > 0 && IsWhiteSpace(s[|s| - 1]) then 1 + TrailingWhiteSpace(s[..|s| - 1]) else 0
  }

  /** `s` neither starts nor ends with white space. */
  predicate Trimmed(s: string) {
    s == [] || (!IsWhiteSpace(s[0]) && !IsWhiteSpace(s[|s| - 1]))
  }

  /** `s.trim()`: the longest slice of `s` that neither starts nor ends with
      white space, with only white space cut away around it. */
  function Trim(s: string): (r: string)
    ensures |r| <= |s|
    ensures Trimmed(r)
    ensures LeadingWhiteSpace(s) + |r| <= |s|
    ensures r == s[LeadingWhiteSpace(s)..LeadingWhiteSpace(s) + |r|]
    ensures forall k | 0 <= k < |s| && !(LeadingWhiteSpace(s) <= k < LeadingWhiteSpace(s) + |r|) ::
              IsWhiteSpace(s[k])
  {
    var lo := LeadingWhiteSpace(s);
    var rest := s[lo..];
    var hi := |s| - TrailingWhiteSpace(rest);
    assert forall k | hi <= k < |s| :: s[k] == rest[k - lo];
    s[lo..hi]
  }

  /** Trimming a string that does not start or end with white space leaves it as it is. */
  lemma TrimKeepsTrimmed(s: string)
    requires Trimmed(s)
    ensures Trim(s) == s
  {
    if s != [] {
      assert LeadingWhiteSpace(s) == 0;
      assert TrailingWhiteSpace(s) == 0;
    }
  }

  /** Trimming is idempotent. */
  lemma TrimIdempotent(s: string)
    ensures Trim(Trim(s)) == Trim(s)
  {
    TrimKeepsTrimmed(Trim(s));
  }

  // ---------------------------------------------------------------------
  // parseInt(string) with no radix argument

  /** Value of `c` as a digit in bases up to 36, or 36 when it is no digit. */
  function DigitValue(c: char): (d: nat)
    ensures d <= 36
    ensures d < 10 <==> '0' <= c <= '9'
  {
    if '0' <= c <= '9' then (c - '0') as nat
    else if 'a' <= c <= 'z' then (c - 'a') as nat + 10
    else if 'A' <= c <= 'Z' then (c - 'A') as nat + 10
    else 36
  }

  /** Length of the longest prefix of `s` made of digits of base `radix`. */
  function DigitPrefix(s: string, radix: nat): (n: nat)
    ensures n <= |s|
    ensures forall k | 0 <= k < n :: DigitValue(s[k]) < radix
    ensures n < |s| ==> DigitValue(s[n]) >= radix
  {
    if |s| > 0 && DigitValue(s[0]) < radix then 1 + DigitPrefix(s[1..], radix) else 0
  }

  /** The number that the digit string `ds` denotes in base `radix`. */
  function DigitsValue(ds: string, radix: nat): nat {
    if ds == [] then 0
    else DigitsValue(ds[..|ds| - 1], radix) * radix + DigitValue(ds[|ds| - 1])
  }

  /** `parseInt(s)`: skip leading white space, read an optional sign, switch to
      base 16 after a `0x`/`0X` prefix, and read the longest run of digits that
      follows; `None` stands for `NaN`, the result when there are no digits.
      (`-0` reads as 0, which JavaScript also treats as falsy.) */
  function ParseInt(s: string): (r: Option<int>)
    ensures r.None? <==> DigitPrefix(DigitsAfterPrefix(s).1, DigitsAfterPrefix(s).0) == 0
  {
    var (radix, digits) := DigitsAfterPrefix(s);
    var n := DigitPrefix(digits, radix);
    if n == 0 then None
    else if Negative(s) then Some(-(DigitsValue(digits[..n], radix) as int))
    else Some(DigitsValue(digits[..n], radix))
  }

  /** The first character after the leading white space is a minus sign. */
  predicate Negative(s: string) {
    var t := s[LeadingWhiteSpace(s)..];
    |t| > 0 && t[0] == '-'
  }

  /** The radix `parseInt` settles on and the text where its digits start. */
  function DigitsAfterPrefix(s: string): (r: (nat, string))
    ensures r.0 == 10 || r.0 == 16
  {
    var t := s[LeadingWhiteSpace(s)..];
    var u := if |t| > 0 && (t[0] == '-' || t[0] == '+') then t[1..] else t;
    if |u| >= 2 && u[0] == '0' && (u[1] == 'x' || u[1] == 'X') then (16, u[2..]) else (10, u)
  }

  /** `parseInt(attr) || fallback`: the parsed attribute, or `fallback` when the
      attribute is absent, has no digits, or parses to zero. */
  function IntOr(attr: Option<string>, fallback: int): (r: int)
    ensures attr.None? ==> r == fallback
    ensures attr.Some? && ParseInt(attr.value).None? ==> r == fallback
    ensures attr.Some? && ParseInt(attr.value) == Some(0) ==> r == fallback
    ensures attr.Some? && ParseInt(attr.value).Some? && ParseInt(attr.value).value != 0 ==>
              r == ParseInt(attr.value).value
    ensures fallback != 0 ==> r != 0
  {
    match attr
    case None => fallback
    case Some(a) =>
      match ParseInt(a)
      case None => fallback
      case Some(n) => if n == 0 then fallback else n
  }

  /** Decimal rendering of a natural number, the inverse partner of `ParseInt`. */
  function Decimal(n: nat): (s: string)
    ensures |s| >= 1
    ensures forall k | 0 <= k < |s| :: '0' <= s[k] <= '9'
  {
    var last := ['0' + (n % 10) as char];
    if n < 10 then last else Decimal(n / 10) + last
  }

  lemma {:induction false} DecimalValue(n: nat)
    ensures DigitsValue(Decimal(n), 10) == n
  {
    var s := Decimal(n);
    if n >= 10 {
      DecimalValue(n / 10);
      assert s[..|s| - 1] == Decimal(n / 10);
    }
  }

  lemma {:induction false} AllDigitsPrefix(s: string)
    requires forall k | 0 <= k < |s| :: '0' <= s[k] <= '9'
    ensures DigitPrefix(s, 10) == |s|
  {
    if |s| > 0 {
      AllDigitsPrefix(s[1..]);
    }
  }

  /** Reading back the decimal rendering of `n` gives `n`. */
  lemma ParseIntDecimal(n: nat)
    ensures ParseInt(Decimal(n)) == Some(n)
  {
    var s := Decimal(n);
    assert !IsWhiteSpace(s[0]);
    assert LeadingWhiteSpace(s) == 0;
    assert s[0..] == s;
    if |s| >= 2 {
      assert s[1] != 'x' && s[1] != 'X';
    }
    assert DigitsAfterPrefix(s) == (10, s);
    AllDigitsPrefix(s);
    assert s[..|s|] == s;
    DecimalValue(n);
  }

  /** `parseInt` on an optional sign, a run of decimal digits and any text that
      does not continue the run (`"12px"`, `"-3 s"`): the signed value of the
      run. A lone `0` followed by `x` or `X` is left to the base-16 case. */
  lemma ParseIntDecimalRun(sign: string, ds: string, rest: string)
    requires sign == "" || sign == "-" || sign == "+"
    requires ds != [] && forall k | 0 <= k < |ds| :: '0' <= ds[k] <= '9'
    requires rest != [] ==> !('0' <= rest[0] <= '9')
    requires |ds| == 1 && ds[0] == '0' && rest != [] ==> rest[0] != 'x' && rest[0] != 'X'
    ensures ParseInt(sign + ds + rest).Some?
    ensures ParseInt(sign + ds + rest).value ==
              if sign == "-" then -(DigitsValue(ds, 10) as int) else DigitsValue(ds, 10)
  {
    ConcatAssoc(sign, ds, rest);
    DecimalStart(sign, ds, rest);
    assert forall k | 0 <= k < |ds| :: DigitValue(ds[k]) < 10;
    ParseIntRun(sign + (ds + rest), 10, ds, rest);
  }

  /** Decimal digits after the sign select base 10. */
  lemma DecimalStart(sign: string, ds: string, rest: string)
    requires sign == "" || sign == "-" || sign == "+"
    requires ds != [] && '0' <= ds[0] <= '9'
    requires |ds| >= 2 ==> '0' <= ds[1] <= '9'
    requires |ds| == 1 && ds[0] == '0' && rest != [] ==> rest[0] != 'x' && rest[0] != 'X'
    ensures DigitsAfterPrefix(sign + (ds + rest)) == (10, ds + rest)
    ensures Negative(sign + (ds + rest)) <==> sign == "-"
  {
    var u := ds + rest;
    SignedStart(sign, u);
    if |u| >= 2 && u[0] == '0' {
      assert u[1] != 'x' && u[1] != 'X';
    }
  }

  /** The same for a `0x`/`0X` prefix: the digits after it are read in base 16. */
  lemma ParseIntHexRun(sign: string, x: char, hs: string, rest: string)
    requires sign == "" || sign == "-" || sign == "+"
    requires x == 'x' || x == 'X'
    requires hs != [] && forall k | 0 <= k < |hs| :: DigitValue(hs[k]) < 16
    requires rest != [] ==> DigitValue(rest[0]) >= 16
    ensures ParseInt(sign + ['0', x] + hs + rest).Some?
    ensures ParseInt(sign + ['0', x] + hs + rest).value ==
              if sign == "-" then -(DigitsValue(hs, 16) as int) else DigitsValue(hs, 16)
  {
    var v := hs + rest;
    var u := ['0', x] + v;
    var s := sign + u;
    ConcatAssoc(sign + ['0', x], hs, rest);
    ConcatAssoc(sign, ['0', x], v);
    SignedStart(sign, u);
    assert u[2..] == v;
    ParseIntRun(s, 16, hs, rest);
  }

  /** After an optional sign, a string `u` that starts with neither white space
      nor a sign is where `parseInt` looks for its radix prefix and digits, and
      the result is negative exactly when the sign is `-`. */
  lemma SignedStart(sign: string, u: string)
    requires sign == "" || sign == "-" || sign == "+"
    requires u != [] && !IsWhiteSpace(u[0]) && u[0] != '-' && u[0] != '+'
    ensures DigitsAfterPrefix(sign + u) ==
              if |u| >= 2 && u[0] == '0' && (u[1] == 'x' || u[1] == 'X') then (16, u[2..]) else (10, u)
    ensures Negative(sign + u) <==> sign == "-"
  {
    var s := sign + u;
    assert !IsWhiteSpace(s[0]);
    assert LeadingWhiteSpace(s) == 0;
    var t := s[0..];
    assert t == s;
    var w := if |t| > 0 && (t[0] == '-' || t[0] == '+') then t[1..] else t;
    if sign != "" {
      assert t[1..] == u;
    }
    assert w == u;
  }

  /** Once the radix and the digit text are known, a run of digits `ds` that
      the end or a non-digit closes gives the signed value of that run. */
  lemma ParseIntRun(s: string, radix: nat, ds: string, rest: string)
    requires DigitsAfterPrefix(s) == (radix, ds + rest)
    requires ds != [] && forall k | 0 <= k < |ds| :: DigitValue(ds[k]) < radix
    requires rest != [] ==> DigitValue(rest[0]) >= radix
    ensures ParseInt(s).Some?
    ensures Negative(s) ==> ParseInt(s).value == -(DigitsValue(ds, radix) as int)
    ensures !Negative(s) ==> ParseInt(s).value == DigitsValue(ds, radix)
  {
    var u := ds + rest;
    assert forall k | 0 <= k < |ds| :: u[k] == ds[k];
    assert |ds| < |u| ==> u[|ds|] == rest[0];
    DigitRun(u, |ds|, radix);
    assert u[..|ds|] == ds;
  }

  lemma ConcatAssoc<T>(a: seq<T>, b: seq<T>, c: seq<T>)
    ensures a + b + c == a + (b + c)
  {
  }

  /** A run of `n` digits that is followed by the end or by a non-digit is the
      whole digit prefix. */
  lemma DigitRun(s: string, n: nat, radix: nat)
    requires n <= |s|
    requires forall k | 0 <= k < n :: DigitValue(s[k]) < radix
    requires n < |s| ==> DigitValue(s[n]) >= radix
    ensures DigitPrefix(s, radix) == n
  {
  }

  // ---------------------------------------------------------------------
  // split / join / includes

  /** `s.split(sep)` for a one-character separator: the maximal runs between
      separators, in order, including empty runs; never an empty list. */
  function Split<T(==)>(s: seq<T>, sep: T): (parts: seq<seq<T>>)
    ensures |parts| >= 1
    ensures forall i | 0 <= i < |parts| :: sep !in parts[i]
  {
    if s == [] then [[]]
    else
      var rest := Split(s[1..], sep);
      if s[0] == sep then [[]] + rest
      else [[s[0]] + rest[0]] + rest[1..]
  }

  /** `parts.join(sep)`. */
  function Join<T>(parts: seq<seq<T>>, sep: seq<T>): seq<T> {
    if parts == [] then []
    else if |parts| == 1 then parts[0]
    else parts[0] + sep + Join(parts[1..], sep)
  }

  /** Joining the pieces of a split with the separator gives back the text. */
  lemma {:induction false} JoinSplit<T>(s: seq<T>, sep: T)
    ensures Join(Split(s, sep), [sep]) == s
  {
    if s != [] {
      var rest := Split(s[1..], sep);
      JoinSplit(s[1..], sep);
      if s[0] != sep {
        if |rest| > 1 {
          assert ([[s[0]] + rest[0]] + rest[1..])[1..] == rest[1..];
          assert [s[0]] + rest[0] + [sep] + Join(rest[1..], [sep]) == [s[0]] + Join(rest, [sep]);
        }
      } else {
        assert ([[]] + rest)[1..] == rest;
      }
    }
  }

  lemma {:induction false} SplitNoSeparator<T>(p: seq<T>, sep: T)
    requires sep !in p
    ensures Split(p, sep) == [p]
  {
    if p != [] {
      SplitNoSeparator(p[1..], sep);
      assert [p[0]] + p[1..] == p;
    }
  }

  lemma {:induction false} SplitAtSeparator<T>(p: seq<T>, sep: T, rest: seq<T>)
    requires sep !in p
    ensures Split(p + [sep] + rest, sep) == [p] + Split(rest, sep)
  {
    var s := p + [sep] + rest;
    if p == [] {
      assert s[1..] == rest;
    } else {
      assert s[1..] == p[1..] + [sep] + rest;
      SplitAtSeparator(p[1..], sep, rest);
      assert [p[0]] + p[1..] == p;
    }
  }

  /** Splitting the join of separator-free pieces gives back the pieces. */
  lemma {:induction false} SplitJoin<T>(parts: seq<seq<T>>, sep: T)
    requires |parts| >= 1
    requires forall i | 0 <= i < |parts| :: sep !in parts[i]
    ensures Split(Join(parts, [sep]), sep) == parts
  {
    if |parts| == 1 {
      SplitNoSeparator(parts[0], sep);
    } else {
      SplitJoin(parts[1..], sep);
      SplitAtSeparator(parts[0], sep, Join(parts[1..], [sep]));
    }
  }

  /** `s.includes(sub)`: `sub` occurs somewhere in `s` (the empty string occurs everywhere). */
  predicate Includes(s: string, sub: string) {
    sub <= s || (s != [] && Includes(s[1..], sub))
  }

  /** `sub` occurs in `s` starting at index `i`. */
  predicate OccursAt(s: string, sub: string, i: nat) {
    i + |sub| <= |s| && s[i..i + |sub|] == sub
  }

  lemma {:induction false} IncludesAt(s: string, sub: string, i: nat)
    requires i + |sub| <= |s| && s[i..i + |sub|] == sub
    ensures Includes(s, sub)
  {
    if i > 0 {
      assert s[1..][i - 1..i - 1 + |sub|] == sub;
      IncludesAt(s[1..], sub, i - 1);
    }
  }

  lemma {:induction false} IncludesWitness(s: string, sub: string) returns (i: nat)
    requires Includes(s, sub)
    ensures i + |sub| <= |s| && s[i..i + |sub|] == sub
  {
    if sub <= s {
      i := 0;
    } else {
      var j := IncludesWitness(s[1..], sub);
      i := j + 1;
      assert s[i..i + |sub|] == s[1..][j..j + |sub|];
    }
  }

  // ---------------------------------------------------------------------
  // UTF-16 code units: what `.length`, `charAt` and `split('')` count

  /** A UTF-16 code unit. */
  type CodeUnit = u: int | 0 <= u < 0x1_0000

  predicate IsHighSurrogate(u: CodeUnit) { 0xD800 <= u < 0xDC00 }

  predicate IsLowSurrogate(u: CodeUnit) { 0xDC00 <= u < 0xE000 }

  predicate IsSurrogate(u: CodeUnit) { 0xD800 <= u < 0xE000 }

  /** The character lies in the Basic Multilingual Plane and so takes one code unit. */
  predicate InBmp(c: char) { c as int < 0x1_0000 }

  /** The UTF-16 encoding of one character: the character itself when it is
      in the Basic Multilingual Plane, otherwise a high surrogate followed by
      a low surrogate. */
  function Utf16(c: char): (u: seq<CodeUnit>)
    ensures InBmp(c) ==> u == [c as int] && !IsSurrogate(u[0])
    ensures !InBmp(c) ==> |u| == 2 && IsHighSurrogate(u[0]) && IsLowSurrogate(u[1])
  {
    var v := c as int;
    if v < 0x1_0000 then [v]
    else [0xD800 + (v - 0x1_0000) / 0x400, 0xDC00 + (v - 0x1_0000) % 0x400]
  }

  /** The code units JavaScript stores for a text. */
  function Units(s: string): seq<CodeUnit> {
    if s == [] then [] else Utf16(s[0]) + Units(s[1..])
  }

  /** `s.length`: one per character of the Basic Multilingual Plane, two per
      character outside it. */
  function Length(s: string): nat {
    if s == [] then 0 else (if InBmp(s[0]) then 1 else 2) + Length(s[1..])
  }

  /** A text's `.length` lies between its number of characters and twice that. */
  lemma {:induction false} LengthBounds(s: string)
    ensures |s| <= Length(s) <= 2 * |s|
  {
    if s != [] {
      LengthBounds(s[1..]);
    }
  }

  /** `.length` is the number of code units of the text. */
  lemma {:induction false} LengthUnits(s: string)
    ensures Length(s) == |Units(s)|
  {
    if s != [] {
      LengthUnits(s[1..]);
    }
  }

  /** `.length` counts characters exactly when no character lies outside the
      Basic Multilingual Plane. */
  lemma {:induction false} LengthCountsCharacters(s: string)
    ensures Length(s) == |s| <==> forall i | 0 <= i < |s| :: InBmp(s[i])
  {
    if s != [] {
      LengthCountsCharacters(s[1..]);
      LengthBounds(s[1..]);
      assert forall i | 1 <= i < |s| :: s[i] == s[1..][i - 1];
    }
  }

  lemma {:induction false} UnitsConcat(a: string, b: string)
    ensures Units(a + b) == Units(a) + Units(b)
  {
    if a == [] {
      assert a + b == b;
    } else {
      var ab := a + b;
      assert ab[0] == a[0] && ab[1..] == a[1..] + b;
      UnitsConcat(a[1..], b);
      var e, x, y := Utf16(a[0]), Units(a[1..]), Units(b);
      assert Units(ab) == e + Units(a[1..] + b);
      assert Units(a) == e + x;
      assert e + (x + y) == (e + x) + y;
    }
  }

  lemma {:induction false} LengthConcat(a: string, b: string)
    ensures Length(a + b) == Length(a) + Length(b)
  {
    if a == [] {
      assert a + b == b;
    } else {
      var ab := a + b;
      assert ab[0] == a[0] && ab[1..] == a[1..] + b;
      LengthConcat(a[1..], b);
    }
  }

  lemma {:induction false} LengthDrop(s: string, k: nat)
    requires k <= |s|
    ensures Length(s[k..]) <= Length(s)
  {
    if k > 0 {
      LengthDrop(s[1..], k - 1);
      assert s[1..][k - 1..] == s[k..];
    }
  }

  lemma {:induction false} LengthTake(s: string, k: nat)
    requires k <= |s|
    ensures Length(s[..k]) <= Length(s)
  {
    if k > 0 {
      LengthTake(s[1..], k - 1);
      assert s[..k][0] == s[0] && s[..k][1..] == s[1..][..k - 1];
    }
  }

  /** The length of a slice is at most the length of the text. */
  lemma SliceLength(s: string, lo: nat, hi: nat)
    requires lo <= hi <= |s|
    ensures Length(s[lo..hi]) <= Length(s)
  {
    LengthDrop(s, lo);
    LengthTake(s[lo..], hi - lo);
    assert s[lo..][..hi - lo] == s[lo..hi];
  }

  /** Trimming never makes a text longer, and its length is its number of code units. */
  lemma TrimShortens(s: string)
    ensures |Units(Trim(s))| == Length(Trim(s)) <= Length(s)
  {
    SliceLength(s, LeadingWhiteSpace(s), LeadingWhiteSpace(s) + |Trim(s)|);
    LengthUnits(Trim(s));
  }

  /** The character that displays in place of a surrogate without its partner. */
  const Replacement: char := '\U{FFFD}'

  /** The character a surrogate pair encodes. */
  function Pair(hi: CodeUnit, lo: CodeUnit): (c: char)
    requires IsHighSurrogate(hi) && IsLowSurrogate(lo)
    ensures !InBmp(c)
  {
    ((hi - 0xD800) * 0x400 + (lo - 0xDC00) + 0x1_0000) as char
  }

  /** The characters code units stand for when displayed: a high surrogate
      followed by a low one is the character they encode, a surrogate
      without its partner shows as U+FFFD, and any other unit is the
      character with that code. */
  function FromUnits(u: seq<CodeUnit>): string {
    if u == [] then []
    else if |u| >= 2 && IsHighSurrogate(u[0]) && IsLowSurrogate(u[1]) then
      [Pair(u[0], u[1])] + FromUnits(u[2..])
    else if IsSurrogate(u[0]) then [Replacement] + FromUnits(u[1..])
    else [u[0] as char] + FromUnits(u[1..])
  }

  /** Decoding the code units of a text gives back the text. */
  lemma {:induction false} FromUnitsUnits(s: string)
    ensures FromUnits(Units(s)) == s
  {
    if s != [] {
      var e := Utf16(s[0]);
      var u := Units(s);
      FromUnitsUnits(s[1..]);
      if InBmp(s[0]) {
        assert u[1..] == Units(s[1..]);
      } else {
        assert u[2..] == Units(s[1..]);
        var v := s[0] as int - 0x1_0000;
        assert Pair(u[0], u[1]) == s[0];
      }
      assert [s[0]] + s[1..] == s;
    }
  }

  /** A lone surrogate displays as U+FFFD. */
  lemma LoneSurrogate(u: CodeUnit)
    requires IsSurrogate(u)
    ensures FromUnits([u]) == [Replacement]
  {
  }

  /** `s.split('')`: one piece per code unit, so a character outside the Basic
      Multilingual Plane falls apart into its two surrogates. */
  function Chars(s: string): (parts: seq<seq<CodeUnit>>)
    ensures |parts| == |Units(s)| == Length(s)
    ensures forall i | 0 <= i < |parts| :: parts[i] == [Units(s)[i]]
  {
    LengthUnits(s);
    var u := Units(s);
    seq(|u|, i requires 0 <= i < |u| => [u[i]])
  }

  lemma {:induction false} JoinSingletons<T>(u: seq<T>)
    ensures Join(seq(|u|, i requires 0 <= i < |u| => [u[i]]), []) == u
  {
    if |u| > 1 {
      JoinSingletons(u[1..]);
      assert seq(|u|, i requires 0 <= i < |u| => [u[i]])[1..] ==
             seq(|u| - 1, i requires 0 <= i < |u| - 1 => [u[1..][i]]);
    }
  }

  /** Concatenating the one-unit pieces gives back the text's code units. */
  lemma JoinChars(s: string)
    ensures Join(Chars(s), []) == Units(s)
  {
    JoinSingletons(Units(s));
  }

  /** The code units of each piece, in order. */
  function UnitsOfEach(parts: seq<string>): (r: seq<seq<CodeUnit>>)
    ensures |r| == |parts|
    ensures forall i | 0 <= i < |r| :: r[i] == Units(parts[i])
  {
    seq(|parts|, i requires 0 <= i < |parts| => Units(parts[i]))
  }

  /** Encoding commutes with joining. */
  lemma {:induction false} UnitsJoin(parts: seq<string>, sep: string)
    ensures Units(Join(parts, sep)) == Join(UnitsOfEach(parts), Units(sep))
  {
    if |parts| > 1 {
      UnitsJoin(parts[1..], sep);
      UnitsConcat(parts[0] + sep, Join(parts[1..], sep));
      UnitsConcat(parts[0], sep);
      assert UnitsOfEach(parts)[1..] == UnitsOfEach(parts[1..]);
    }
  }

  /** A character of the Basic Multilingual Plane occurs among a text's code
      units only where it occurs in the text. */
  lemma {:induction false} UnitsWithout(s: string, c: char)
    requires InBmp(c) && c !in s
    ensures (c as int) !in Units(s)
  {
    if s != [] {
      UnitsWithout(s[1..], c);
      assert s[0] != c;
      assert Units(s) == Utf16(s[0]) + Units(s[1..]);
    }
  }

  /** Splitting the code units at a character of the Basic Multilingual Plane
      gives the code units of the pieces the text splits into. */
  lemma SplitUnits(s: string, sep: char)
    requires InBmp(sep)
    ensures Split<CodeUnit>(Units(s), sep as int) == UnitsOfEach(Split(s, sep))
  {
    var parts := Split(s, sep);
    var pieces := UnitsOfEach(parts);
    forall i | 0 <= i < |pieces|
      ensures (sep as int) !in pieces[i]
    {
      UnitsWithout(parts[i], sep);
    }
    JoinSplit(s, sep);
    UnitsJoin(parts, [sep]);
    assert Units([sep]) == [sep as int];
    var u: CodeUnit := sep as int;
    assert Units(s) == Join(pieces, [u]);
    SplitJoin(pieces, u);
  }
}

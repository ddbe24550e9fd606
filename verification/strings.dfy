/**
 * Python string operations the pipeline relies on: `strip`, `lower`,
 * `" ".join`, `split(sep, 1)`, `str` of an optional string, substring search, `replace` of one character,
 * decimal formatting and the code-point ordering used by `sorted`.
 */
module Strings {
  import opened Wrappers

  /** The characters Python's `str.strip()` removes (`str.isspace`). */
  predicate IsSpace(c: char) {
    var n := c as int;
    (9 <= n <= 13) || (28 <= n <= 32) || n == 0x85 || n == 0xA0 || n == 0x1680
    || (0x2000 <= n <= 0x200A) || n == 0x2028 || n == 0x2029 || n == 0x202F
    || n == 0x205F || n == 0x3000
  }

  predicate AllSpace(s: string) {
    forall i | 0 <= i < |s| :: IsSpace(s[i])
  }

  /** Python truthiness of an optional string: present and non-empty. */
  predicate Truthy(o: Option<string>) {
    o.Some? && o.value != ""
  }

  /** Python `a or b` on optional strings. */
  function Or(a: Option<string>, b: Option<string>): (r: Option<string>)
    ensures Truthy(a) ==> r == a
    ensures !Truthy(a) ==> r == b
  {
    if Truthy(a) then a else b
  }

  /** A story Python skips as blank: `not s.strip()` holds. */
  predicate Blank(s: string) {
    AllSpace(s)
  }

  function StripStart(s: string): (r: string)
    ensures |r| <= |s| && r == s[|s| - |r|..]
    ensures r == [] || !IsSpace(r[0])
    ensures AllSpace(s[..|s| - |r|])
  {
    if |s| > 0 && IsSpace(s[0]) then
      var r := StripStart(s[1..]);
      assert s[..|s| - |r|] == [s[0]] + s[1..][..|s| - 1 - |r|];
      r
    else s
  }

  function StripEnd(s: string): (r: string)
    ensures |r| <= |s| && r == s[..|r|]
    ensures r == [] || !IsSpace(r[|r| - 1])
    ensures AllSpace(s[|r|..])
  {
    if |s| > 0 && IsSpace(s[|s| - 1]) then
      var r := StripEnd(s[..|s| - 1]);
      assert s[|r|..] == s[..|s| - 1][|r|..] + [s[|s| - 1]];
      r
    else s
  }

  /** Python `s.strip()`: no leading or trailing whitespace is left, and the
      result is empty exactly when `s` is all whitespace. */
  function Strip(s: string): (r: string)
    ensures |r| <= |s|
    ensures r == [] || (!IsSpace(r[0]) && !IsSpace(r[|r| - 1]))
    ensures r == [] <==> AllSpace(s)
    ensures forall i | 0 <= i < |r| :: r[i] in s
  {
    StripEmptyIff(s);
    StripMembers(s);
    StripEnd(StripStart(s))
  }

  lemma StripEmptyIff(s: string)
    ensures StripEnd(StripStart(s)) == [] <==> AllSpace(s)
  {
    var t := StripStart(s);
    var r := StripEnd(t);
    assert t != [] ==> t[0] == s[|s| - |t|];
    if r == [] {
      assert t[0..] == t;
      assert s[..|s|] == s;
    }
  }

  lemma StripMembers(s: string)
    ensures var r := StripEnd(StripStart(s));
            forall i | 0 <= i < |r| :: r[i] in s
  {
    var t := StripStart(s);
    var r := StripEnd(t);
    SliceMembers(s, |s| - |t|, |s|);
    SliceMembers(t, 0, |r|);
  }

  /** Every character of a slice occurs in the whole. */
  lemma SliceMembers(s: string, a: nat, b: nat)
    requires a <= b <= |s|
    ensures forall x | x in s[a..b] :: x in s
  {
    forall x | x in s[a..b] ensures x in s {
      var i :| 0 <= i < b - a && s[a..b][i] == x;
      assert s[a + i] == x;
    }
  }

  /** `strip` is idempotent. */
  lemma StripIdempotent(s: string)
    ensures Strip(Strip(s)) == Strip(s)
  {
    var r := Strip(s);
    if r != [] {
      assert StripStart(r) == r;
      assert StripEnd(r) == r;
    }
  }

  function LowerChar(c: char): char {
    if 'A' <= c <= 'Z' then (c as int + 32) as char else c
  }

  /** Python `s.lower()` restricted to ASCII letters. */
  function Lower(s: string): (r: string)
    ensures |r| == |s|
    ensures forall i | 0 <= i < |s| :: r[i] == LowerChar(s[i])
  {
    seq(|s|, i requires 0 <= i < |s| => LowerChar(s[i]))
  }

  /** `lower` leaves no upper-case ASCII letter and is idempotent. */
  lemma LowerIdempotent(s: string)
    ensures forall i | 0 <= i < |s| :: !('A' <= Lower(s)[i] <= 'Z')
    ensures Lower(Lower(s)) == Lower(s)
  {
  }

  /** Python `sep.join(parts)`. */
  function Join(parts: seq<string>, sep: string): string {
    if |parts| == 0 then ""
    else if |parts| == 1 then parts[0]
    else parts[0] + sep + Join(parts[1..], sep)
  }

  /** Python `v or ""` of an optional string. */
  function OrEmpty(v: Option<string>): (r: string)
    ensures Truthy(v) ==> r == v.value
    ensures !Truthy(v) ==> r == ""
  {
    if v.Some? then v.value else ""
  }

  /** Python `str(v)` of an optional string. */
  function PyStr(v: Option<string>): string {
    if v.Some? then v.value else "None"
  }

  /** Python `s.replace(a, b)` for single characters. */
  function ReplaceChar(s: string, a: char, b: char): (r: string)
    ensures |r| == |s|
    ensures forall i | 0 <= i < |s| :: r[i] == (if s[i] == a then b else s[i])
  {
    seq(|s|, i requires 0 <= i < |s| => if s[i] == a then b else s[i])
  }

  /** After replacing `a` by a different character no `a` is left. */
  lemma ReplaceRemoves(s: string, a: char, b: char)
    requires a != b
    ensures a !in ReplaceChar(s, a, b)
  {
  }

  predicate OccursAt(s: string, sub: string, k: nat) {
    k + |sub| <= |s| && s[k..k + |sub|] == sub
  }

  /** Python `sub in s`. */
  predicate Contains(s: string, sub: string) {
    exists k | 0 <= k <= |s| :: OccursAt(s, sub, k)
  }

  /** A text lacking one of the characters of `sub` does not contain it. */
  lemma MissingChar(s: string, sub: string, c: char)
    requires c in sub && c !in s
    ensures !Contains(s, sub)
  {
  }

  /** Python `(p + c + q).split(c, 1)[0]` is `p` when `p` holds no `c`. */
  lemma BeforeFirstChar(p: string, c: char, q: string)
    requires c !in p
    ensures BeforeFirst(p + [c] + q, [c]) == p
  {
    var s := p + [c] + q;
    var r := BeforeFirst(s, [c]);
    assert s[|p|..|p| + 1] == [c];
    assert OccursAt(s, [c], |p|);
    forall m | 0 <= m < |p| ensures !OccursAt(s, [c], m) {
      assert s[m] == p[m];
      assert s[m..m + 1] == [s[m]];
    }
    assert r == s[..|r|];
  }

  function FindFrom(s: string, sub: string, k: nat): (r: Option<nat>)
    requires k <= |s|
    ensures r.Some? ==> k <= r.value <= |s| && OccursAt(s, sub, r.value)
    ensures r.Some? ==> forall m | k <= m < r.value :: !OccursAt(s, sub, m)
    ensures r.None? ==> forall m | k <= m <= |s| :: !OccursAt(s, sub, m)
    decreases |s| - k
  {
    if OccursAt(s, sub, k) then Some(k)
    else if k == |s| then None
    else FindFrom(s, sub, k + 1)
  }

  /** Python `s.find(sub)`: the first occurrence of `sub`, if there is one. */
  function Find(s: string, sub: string): (r: Option<nat>)
    ensures r.Some? <==> Contains(s, sub)
    ensures r.Some? ==> OccursAt(s, sub, r.value)
    ensures r.Some? ==> forall m | 0 <= m < r.value :: !OccursAt(s, sub, m)
  {
    FindFrom(s, sub, 0)
  }

  /** Python `s.split(sep, 1)[0]`: the text before the first `sep`, or all of
      `s` when `sep` does not occur. */
  function BeforeFirst(s: string, sep: string): (r: string)
    ensures |r| <= |s| && r == s[..|r|]
    ensures Contains(s, sep) <==> |r| < |s| || (|sep| == 0 && |s| == 0)
    ensures Contains(s, sep) ==> OccursAt(s, sep, |r|)
    ensures forall m | 0 <= m < |r| :: !OccursAt(s, sep, m)
  {
    match Find(s, sep)
    case Some(k) => s[..k]
    case None => s
  }

  /** Python `s.split(sep, 1)[-1]`: the text after the first `sep`, or all
      of `s` when `sep` does not occur. */
  function AfterFirst(s: string, sep: string): (r: string)
    ensures Contains(s, sep) ==> s == BeforeFirst(s, sep) + sep + r
    ensures !Contains(s, sep) ==> r == s
  {
    match Find(s, sep)
    case Some(k) => s[k + |sep|..]
    case None => s
  }

  function DigitChar(d: nat): char
    requires d < 10
  {
    ('0' as int + d) as char
  }

  predicate AllDigits(s: string) {
    forall i | 0 <= i < |s| :: '0' <= s[i] <= '9'
  }

  /** Python `str(n)` for a natural number. */
  function Digits(n: nat): (r: string)
    ensures |r| >= 1 && AllDigits(r)
  {
    if n < 10 then [DigitChar(n)] else Digits(n / 10) + [DigitChar(n % 10)]
  }

  /** The value of a decimal numeral (leading zeros allowed). */
  function DigitValue(s: string): nat
    requires AllDigits(s)
  {
    if |s| == 0 then 0
    else DigitValue(s[..|s| - 1]) * 10 + (s[|s| - 1] as int - '0' as int)
  }

  /** Left-pads `s` with `'0'` up to width `w`, as Python's `:0wd` format does. */
  function ZeroPad(s: string, w: nat): (r: string)
    ensures |r| == if |s| >= w then |s| else w
    ensures AllDigits(s) ==> AllDigits(r)
    decreases w - |s|
  {
    if |s| >= w then s else ZeroPad(['0'] + s, w)
  }

  lemma {:induction false} DigitsValue(n: nat)
    ensures DigitValue(Digits(n)) == n
  {
    if n >= 10 {
      DigitsValue(n / 10);
      var d := Digits(n / 10) + [DigitChar(n % 10)];
      assert d[..|d| - 1] == Digits(n / 10);
    }
  }

  lemma {:induction false} LeadingZeroValue(s: string)
    requires AllDigits(s)
    ensures DigitValue(['0'] + s) == DigitValue(s)
  {
    if |s| > 0 {
      var t := ['0'] + s;
      assert t[..|t| - 1] == ['0'] + s[..|s| - 1];
      LeadingZeroValue(s[..|s| - 1]);
    }
  }

  lemma {:induction false} ZeroPadValue(s: string, w: nat)
    requires AllDigits(s)
    ensures DigitValue(ZeroPad(s, w)) == DigitValue(s)
    decreases w - |s|
  {
    if |s| < w {
      LeadingZeroValue(s);
      ZeroPadValue(['0'] + s, w);
    }
  }

  /** Python's `<` on strings: lexicographic by code point. */
  predicate Less(a: string, b: string) {
    if |a| == 0 then |b| > 0
    else |b| > 0 && (a[0] < b[0] || (a[0] == b[0] && Less(a[1..], b[1..])))
  }

  lemma {:induction false} LessIrreflexive(a: string)
    ensures !Less(a, a)
  {
    if |a| > 0 {
      LessIrreflexive(a[1..]);
    }
  }

  lemma {:induction false} LessTransitive(a: string, b: string, c: string)
    requires Less(a, b) && Less(b, c)
    ensures Less(a, c)
  {
    if |a| > 0 && a[0] == b[0] && b[0] == c[0] {
      LessTransitive(a[1..], b[1..], c[1..]);
    }
  }

  lemma {:induction false} LessTotal(a: string, b: string)
    ensures a == b || Less(a, b) || Less(b, a)
  {
    if |a| > 0 && |b| > 0 && a[0] == b[0] {
      LessTotal(a[1..], b[1..]);
      if a[1..] == b[1..] {
        assert a == [a[0]] + a[1..] && b == [b[0]] + b[1..];
      }
    }
  }

  lemma {:induction false} LessAsymmetric(a: string, b: string)
    requires Less(a, b)
    ensures !Less(b, a)
  {
    if |a| > 0 && |b| > 0 && a[0] == b[0] {
      LessAsymmetric(a[1..], b[1..]);
    }
  }
}

/**
 * The string operations the app relies on: JavaScript's default string
 * order (used by `sort()` and, for ASCII roll numbers, by `localeCompare`),
 * decimal rendering of numbers, `split`, `trim` and `toLowerCase`.
 */
module Strings {
  import opened Seqs

  // ----- JavaScript's string order -----

  /**
   * `a < b` on JavaScript strings: the first differing character decides,
   * and a proper prefix comes first.
   */
  predicate StrLt(a: string, b: string)
    decreases |a|
  {
    if |a| == 0 then |b| > 0
    else if |b| == 0 then false
    else if a[0] != b[0] then a[0] < b[0]
    else StrLt(a[1..], b[1..])
  }

  predicate StrLe(a: string, b: string) {
    a == b || StrLt(a, b)
  }

  /** The sort key of a plain `sort()` of strings: the string itself. */
  function SameString(d: string): string { d }

  lemma {:induction false} StrLtIrreflexive(a: string)
    ensures !StrLt(a, a)
  {
    if |a| > 0 {
      StrLtIrreflexive(a[1..]);
    }
  }

  lemma {:induction false} StrLtAsymmetric(a: string, b: string)
    requires StrLt(a, b)
    ensures !StrLt(b, a)
  {
    if |a| > 0 && a[0] == b[0] {
      StrLtAsymmetric(a[1..], b[1..]);
    }
  }

  lemma {:induction false} StrLtTransitive(a: string, b: string, c: string)
    requires StrLt(a, b) && StrLt(b, c)
    ensures StrLt(a, c)
  {
    if |a| > 0 && a[0] == b[0] && b[0] == c[0] {
      StrLtTransitive(a[1..], b[1..], c[1..]);
    }
  }

  /** Any two distinct strings are ordered one way or the other. */
  lemma {:induction false} StrLtTrichotomy(a: string, b: string)
    ensures a == b || StrLt(a, b) || StrLt(b, a)
  {
    if |a| > 0 && |b| > 0 && a[0] == b[0] {
      StrLtTrichotomy(a[1..], b[1..]);
      assert a == [a[0]] + a[1..] && b == [b[0]] + b[1..];
    }
  }

  /** The string order is a total order, so sorting by it is well defined. */
  lemma StrLeTotalPreorder()
    ensures TotalPreorder(StrLe)
  {
    forall a, b ensures StrLe(a, b) || StrLe(b, a) {
      StrLtTrichotomy(a, b);
    }
    forall a, b, c | StrLe(a, b) && StrLe(b, c) ensures StrLe(a, c) {
      if a != b && b != c {
        StrLtTransitive(a, b, c);
      }
    }
  }

  /** Comparing two strings whose heads have equal length: the heads decide first. */
  lemma {:induction false} StrLtSameLengthHeads(p: string, x: string, q: string, y: string)
    requires |p| == |q|
    ensures StrLt(p + x, q + y) <==> StrLt(p, q) || (p == q && StrLt(x, y))
  {
    if |p| == 0 {
      assert p + x == x && q + y == y;
    } else {
      assert (p + x)[0] == p[0] && (q + y)[0] == q[0];
      if p[0] == q[0] {
        assert (p + x)[1..] == p[1..] + x && (q + y)[1..] == q[1..] + y;
        StrLtSameLengthHeads(p[1..], x, q[1..], y);
        assert p == [p[0]] + p[1..] && q == [q[0]] + q[1..];
      }
    }
  }

  // ----- decimal digits -----

  predicate IsDigit(c: char) {
    '0' <= c <= '9'
  }

  predicate AllDigits(s: string) {
    forall i :: 0 <= i < |s| ==> IsDigit(s[i])
  }

  function DigitValue(c: char): nat
    requires IsDigit(c)
  {
    c as int - '0' as int
  }

  function DigitChar(d: nat): char
    requires d < 10
  {
    ('0' as int + d) as char
  }

  function Pow10(n: nat): (r: nat)
    ensures r >= 1
  {
    if n == 0 then 1 else 10 * Pow10(n - 1)
  }

  /** The number a digit string denotes (`parseInt` of a digit string). */
  function DigitsValue(s: string): nat
    requires AllDigits(s)
  {
    if s == [] then 0 else DigitValue(s[0]) * Pow10(|s| - 1) + DigitsValue(s[1..])
  }

  lemma {:induction false} DigitsValueBound(s: string)
    requires AllDigits(s)
    ensures DigitsValue(s) < Pow10(|s|)
  {
    if s != [] {
      DigitsValueBound(s[1..]);
      LeadingDigitBound(DigitValue(s[0]), Pow10(|s| - 1), DigitsValue(s[1..]), 9);
    }
  }

  /** With `r < p`, a leading digit `d <= m` keeps `d * p + r` below `(m + 1) * p`. */
  lemma LeadingDigitBound(d: nat, p: nat, r: nat, m: nat)
    requires d <= m && r < p
    ensures d * p + r < (m + 1) * p
  {
    MulMonotone(d + 1, m + 1, p);
  }

  lemma {:induction false} MulMonotone(x: nat, y: nat, p: nat)
    requires x <= y
    ensures x * p <= y * p
    decreases y - x
  {
    if x < y {
      MulMonotone(x, y - 1, p);
    }
  }

  /** Adding a digit at the end multiplies by ten and adds it. */
  lemma {:induction false} DigitsValueSnoc(s: string, c: char)
    requires AllDigits(s) && IsDigit(c)
    ensures AllDigits(s + [c])
    ensures DigitsValue(s + [c]) == 10 * DigitsValue(s) + DigitValue(c)
  {
    if s != [] {
      assert (s + [c])[1..] == s[1..] + [c];
      DigitsValueSnoc(s[1..], c);
      var d, p := DigitValue(s[0]), Pow10(|s| - 1);
      assert DigitsValue(s + [c]) == d * (10 * p) + 10 * DigitsValue(s[1..]) + DigitValue(c);
      assert d * (10 * p) == 10 * (d * p);
    }
  }

  /** For digit strings of one length, string order is numeric order. */
  lemma {:induction false} DigitsOrder(a: string, b: string)
    requires |a| == |b| && AllDigits(a) && AllDigits(b)
    ensures StrLt(a, b) <==> DigitsValue(a) < DigitsValue(b)
    ensures a == b <==> DigitsValue(a) == DigitsValue(b)
  {
    if |a| > 0 {
      var p := Pow10(|a| - 1);
      var da, db := DigitValue(a[0]), DigitValue(b[0]);
      var ra, rb := DigitsValue(a[1..]), DigitsValue(b[1..]);
      DigitsValueBound(a[1..]);
      DigitsValueBound(b[1..]);
      assert a == [a[0]] + a[1..] && b == [b[0]] + b[1..];
      if da < db {
        LeadingDigitBound(da, p, ra, db - 1);
      } else if db < da {
        LeadingDigitBound(db, p, rb, da - 1);
      } else {
        DigitsOrder(a[1..], b[1..]);
      }
    }
  }

  /** `String(n)` for a non-negative integer. */
  function NatToString(n: nat): (r: string)
    ensures |r| >= 1 && AllDigits(r)
  {
    if n < 10 then [DigitChar(n)] else NatToString(n / 10) + [DigitChar(n % 10)]
  }

  /** `String(i)` for an integer: a minus sign before negative numbers. */
  function IntToString(i: int): string {
    if i < 0 then "-" + NatToString(-i) else NatToString(i)
  }

  /** Reading back a rendered number gives the number. */
  lemma {:induction false} NatToStringRoundTrip(n: nat)
    ensures DigitsValue(NatToString(n)) == n
  {
    if n >= 10 {
      NatToStringRoundTrip(n / 10);
      DigitsValueSnoc(NatToString(n / 10), DigitChar(n % 10));
    }
  }

  /** A number in [10^(k-1), 10^k) renders with exactly k digits. */
  lemma {:induction false} NatToStringLength(n: nat, k: nat)
    requires k >= 1 && Pow10(k - 1) <= n < Pow10(k)
    ensures |NatToString(n)| == k
  {
    if k > 1 {
      NatToStringLength(n / 10, k - 1);
    }
  }

  // ----- split -----

  /** `s.split(sep)` for a one-character separator. */
  function Split(s: string, sep: char): (r: seq<string>)
    ensures |r| >= 1
    ensures forall i :: 0 <= i < |r| ==> sep !in r[i]
    ensures sep !in s ==> r == [s]
    decreases |s|
  {
    if s == [] then [""]
    else
      var rest := Split(s[1..], sep);
      if s[0] == sep then [""] + rest
      else
        assert s == [s[0]] + s[1..];
        [[s[0]] + rest[0]] + rest[1..]
  }

  /** Everything up to the first separator is the first piece. */
  lemma {:induction false} SplitAtFirst(n: string, sep: char, rest: string)
    requires sep !in n
    ensures Split(n + [sep] + rest, sep) == [n] + Split(rest, sep)
    decreases |n|
  {
    var s := n + [sep] + rest;
    if n == [] {
      assert s == [sep] + rest;
      assert s[1..] == rest;
    } else {
      assert s[0] == n[0] && s[1..] == n[1..] + [sep] + rest;
      SplitAtFirst(n[1..], sep, rest);
      assert [n[0]] + n[1..] == n;
    }
  }

  /** `parts.join(sep)`. */
  function Join(parts: seq<string>, sep: char): string
    requires |parts| >= 1
  {
    if |parts| == 1 then parts[0] else parts[0] + [sep] + Join(parts[1..], sep)
  }

  /** Prefixing the first piece with a character prefixes the joined string. */
  lemma JoinExtendFirst(c: char, parts: seq<string>, sep: char)
    requires |parts| >= 1
    ensures Join([[c] + parts[0]] + parts[1..], sep) == [c] + Join(parts, sep)
  {
    var extended := [[c] + parts[0]] + parts[1..];
    assert extended[0] == [c] + parts[0] && extended[1..] == parts[1..];
    if |parts| > 1 {
      assert ([c] + parts[0]) + [sep] + Join(parts[1..], sep) == [c] + (parts[0] + [sep] + Join(parts[1..], sep));
    }
  }

  /** Splitting loses nothing: joining the pieces back gives the input. */
  lemma {:induction false} SplitJoin(s: string, sep: char)
    ensures Join(Split(s, sep), sep) == s
    decreases |s|
  {
    if s != [] {
      var rest := Split(s[1..], sep);
      SplitJoin(s[1..], sep);
      assert s == [s[0]] + s[1..];
      if s[0] == sep {
        assert Split(s, sep) == [""] + rest;
      } else {
        assert Split(s, sep) == [[s[0]] + rest[0]] + rest[1..];
        JoinExtendFirst(s[0], rest, sep);
      }
    }
  }

  // ----- trim and toLowerCase -----

  /** The characters `String.prototype.trim` removes: white space and line terminators. */
  predicate IsSpace(c: char) {
    || c == ' ' || c == '\t' || c == '\n' || c == '\r' || c == '\U{000B}' || c == '\U{000C}'
    || c == '\U{00A0}' || c == '\U{FEFF}' || c == '\U{1680}' || ('\U{2000}' <= c <= '\U{200A}')
    || c == '\U{2028}' || c == '\U{2029}' || c == '\U{202F}' || c == '\U{205F}' || c == '\U{3000}'
  }

  function TrimStart(s: string): (r: string)
    ensures |r| <= |s| && r == s[|s| - |r|..]
    ensures r == [] || !IsSpace(r[0])
    ensures forall i :: 0 <= i < |s| - |r| ==> IsSpace(s[i])
  {
    if s == [] || !IsSpace(s[0]) then s else TrimStart(s[1..])
  }

  function TrimEnd(s: string): (r: string)
    ensures |r| <= |s| && r == s[..|r|]
    ensures r == [] || !IsSpace(r[|r| - 1])
    ensures forall i :: |r| <= i < |s| ==> IsSpace(s[i])
  {
    if s == [] || !IsSpace(s[|s| - 1]) then s else TrimEnd(s[..|s| - 1])
  }

  /** `s.trim()`. */
  function Trim(s: string): string {
    TrimEnd(TrimStart(s))
  }

  /** Trimming twice is trimming once. */
  lemma TrimIdempotent(s: string)
    ensures Trim(Trim(s)) == Trim(s)
  {
    var t := Trim(s);
    assert t == [] || (!IsSpace(t[0]) && !IsSpace(t[|t| - 1])) by {
      var u := TrimStart(s);
      if t != [] {
        assert t[0] == u[0];
      }
    }
  }

  ghost predicate AllSpace(s: string) {
    forall i :: 0 <= i < |s| ==> IsSpace(s[i])
  }

  lemma {:induction false} TrimStartPadding(pad: string, x: string)
    requires AllSpace(pad)
    ensures TrimStart(pad + x) == TrimStart(x)
  {
    if pad != [] {
      var px := pad + x;
      assert px[0] == pad[0] && IsSpace(px[0]);
      assert px[1..] == pad[1..] + x;
      assert TrimStart(px) == TrimStart(px[1..]);
      assert AllSpace(pad[1..]);
      TrimStartPadding(pad[1..], x);
    } else {
      assert pad + x == x;
    }
  }

  lemma {:induction false} TrimEndPadding(x: string, pad: string)
    requires AllSpace(pad)
    ensures TrimEnd(x + pad) == TrimEnd(x)
  {
    if pad != [] {
      var n := |pad| - 1;
      assert (x + pad)[..|x + pad| - 1] == x + pad[..n];
      TrimEndPadding(x, pad[..n]);
    } else {
      assert x + pad == x;
    }
  }

  /** Once the text has a visible character, trimming the front leaves what follows it alone. */
  lemma {:induction false} TrimStartAppend(x: string, y: string)
    requires TrimStart(x) != []
    ensures TrimStart(x + y) == TrimStart(x) + y
  {
    assert (x + y)[0] == x[0];
    if IsSpace(x[0]) {
      assert TrimStart(x) == TrimStart(x[1..]);
      assert (x + y)[1..] == x[1..] + y;
      TrimStartAppend(x[1..], y);
    } else {
      assert TrimStart(x) == x;
    }
  }

  /** Text that trims to nothing in front adds nothing to the front of what follows. */
  lemma {:induction false} TrimStartEmptyAppend(x: string, y: string)
    requires TrimStart(x) == []
    ensures TrimStart(x + y) == TrimStart(y)
  {
    if x == [] {
      assert x + y == y;
    } else {
      assert IsSpace(x[0]);
      assert TrimStart(x) == TrimStart(x[1..]);
      var xy := x + y;
      assert xy[0] == x[0] && xy[1..] == x[1..] + y;
      assert TrimStart(xy) == TrimStart(xy[1..]);
      TrimStartEmptyAppend(x[1..], y);
    }
  }

  /** `trim` ignores white space added on both sides. */
  lemma TrimPadding(pad: string, s: string)
    requires AllSpace(pad)
    ensures Trim(pad + s + pad) == Trim(s)
  {
    assert pad + s + pad == pad + (s + pad);
    TrimStartPadding(pad, s + pad);
    if TrimStart(s) != [] {
      TrimStartAppend(s, pad);
      TrimEndPadding(TrimStart(s), pad);
    } else {
      TrimStartEmptyAppend(s, pad);
      assert pad == pad + [];
      TrimStartPadding(pad, []);
    }
  }

  function LowerChar(c: char): char {
    if 'A' <= c <= 'Z' then (c as int - 'A' as int + 'a' as int) as char else c
  }

  /** `s.toLowerCase()` on the ASCII letters. */
  function ToLower(s: string): (r: string)
    ensures |r| == |s|
    ensures forall i :: 0 <= i < |s| ==> r[i] == LowerChar(s[i])
  {
    seq(|s|, i requires 0 <= i < |s| => LowerChar(s[i]))
  }

  /** Lower-casing keeps white space where it is, so it commutes with `trim`. */
  lemma {:induction false} TrimToLower(s: string)
    ensures Trim(ToLower(s)) == ToLower(Trim(s))
  {
    TrimStartToLower(s);
    TrimEndToLower(TrimStart(s));
  }

  /** Lower-casing turns no character into white space or out of it. */
  lemma LowerCharSpace(c: char)
    ensures IsSpace(LowerChar(c)) <==> IsSpace(c)
  {
  }

  lemma {:induction false} TrimStartToLower(s: string)
    ensures TrimStart(ToLower(s)) == ToLower(TrimStart(s))
  {
    if s != [] {
      var t := ToLower(s);
      LowerCharSpace(s[0]);
      assert t[0] == LowerChar(s[0]);
      if IsSpace(s[0]) {
        assert t[1..] == ToLower(s[1..]);
        TrimStartToLower(s[1..]);
      } else {
        assert TrimStart(t) == t && TrimStart(s) == s;
      }
    }
  }

  lemma {:induction false} TrimEndToLower(s: string)
    ensures TrimEnd(ToLower(s)) == ToLower(TrimEnd(s))
  {
    if s != [] {
      var t := ToLower(s);
      var n := |s| - 1;
      LowerCharSpace(s[n]);
      assert t[n] == LowerChar(s[n]);
      if IsSpace(s[n]) {
        assert t[..n] == ToLower(s[..n]);
        TrimEndToLower(s[..n]);
      } else {
        assert TrimEnd(t) == t && TrimEnd(s) == s;
      }
    }
  }

  /** Lower-casing twice is lower-casing once, and no upper-case letter is left. */
  lemma ToLowerIdempotent(s: string)
    ensures ToLower(ToLower(s)) == ToLower(s)
    ensures forall i :: 0 <= i < |s| ==> !('A' <= ToLower(s)[i] <= 'Z')
  {
  }
}

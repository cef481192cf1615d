/** Character classes and the Python `str` operations the pipeline relies on.
    Where Python consults the Unicode tables (`str.isdigit`, `\d`, `str.upper`),
    this module uses the ASCII rule; whitespace is Python's ASCII and Latin-1
    whitespace, since the registry file is read as Latin-1. */
module Text {

  // ---------------------------------------------------------------------------
  // Character classes
  // ---------------------------------------------------------------------------

  predicate IsDigit(c: char) {
    '0' <= c <= '9'
  }

  predicate AllDigits(s: string) {
    forall i :: 0 <= i < |s| ==> IsDigit(s[i])
  }

  /** `str.isspace()` restricted to code points below 256. */
  predicate IsSpace(c: char) {
    c == ' ' || 9 <= c as int <= 13 || 28 <= c as int <= 31 || c as int == 0x85 || c as int == 0xA0
  }

  predicate AllSpace(s: string) {
    forall i :: 0 <= i < |s| ==> IsSpace(s[i])
  }

  predicate IsLower(c: char) {
    'a' <= c <= 'z'
  }

  function DigitValue(c: char): (d: nat)
    requires IsDigit(c)
    ensures d < 10
  {
    c as int - '0' as int
  }

  function DigitChar(d: nat): (c: char)
    requires d < 10
    ensures IsDigit(c) && DigitValue(c) == d
  {
    ('0' as int + d) as char
  }

  // ---------------------------------------------------------------------------
  // Stripping
  // ---------------------------------------------------------------------------

  /** Drops leading whitespace. Its properties are stated by `TrimSpaceStartSpec`
      rather than here, so that a mention of a stripped text does not drag them
      into every proof. */
  function TrimSpaceStart(s: string): (r: string)
    ensures |r| <= |s|
    decreases |s|
  {
    if |s| > 0 && IsSpace(s[0]) then TrimSpaceStart(s[1..]) else s
  }

  /** Drops trailing whitespace. */
  function TrimSpaceEnd(s: string): (r: string)
    ensures |r| <= |s|
    decreases |s|
  {
    if |s| > 0 && IsSpace(s[|s| - 1]) then TrimSpaceEnd(s[..|s| - 1]) else s
  }

  /** What `TrimSpaceStart` drops is whitespace, and what it keeps is the rest. */
  lemma {:induction false} TrimSpaceStartSpec(s: string)
    ensures var r := TrimSpaceStart(s);
      r == s[|s| - |r|..]
      && (|r| > 0 ==> !IsSpace(r[0]))
      && AllSpace(s[..|s| - |r|])
    decreases |s|
  {
    if |s| > 0 && IsSpace(s[0]) {
      TrimSpaceStartSpec(s[1..]);
      var r := TrimSpaceStart(s);
      assert s[1..][|s| - 1 - |r|..] == s[|s| - |r|..];
      forall i | 0 <= i < |s| - |r|
        ensures IsSpace(s[i])
      {
        if i > 0 {
          assert s[i] == s[1..][..|s| - 1 - |r|][i - 1];
        }
      }
    }
  }

  /** What `TrimSpaceEnd` drops is whitespace, and what it keeps is the rest. */
  lemma {:induction false} TrimSpaceEndSpec(s: string)
    ensures var r := TrimSpaceEnd(s);
      r == s[..|r|]
      && (|r| > 0 ==> !IsSpace(r[|r| - 1]))
      && AllSpace(s[|r|..])
    decreases |s|
  {
    if |s| > 0 && IsSpace(s[|s| - 1]) {
      var s' := s[..|s| - 1];
      TrimSpaceEndSpec(s');
      var r := TrimSpaceEnd(s);
      assert s'[..|r|] == s[..|r|];
      forall i | |r| <= i < |s|
        ensures IsSpace(s[i])
      {
        if i < |s| - 1 {
          assert s[i] == s'[|r|..][i - |r|];
        }
      }
    }
  }

  /** Drops the leading characters that satisfy `drop`. */
  function TrimStart(s: string, drop: char -> bool): (r: string)
    ensures |r| <= |s|
    ensures |r| > 0 ==> !drop(r[0])
    decreases |s|
  {
    if |s| > 0 && drop(s[0]) then TrimStart(s[1..], drop) else s
  }

  /** Drops the trailing characters that satisfy `drop`. */
  function TrimEnd(s: string, drop: char -> bool): (r: string)
    ensures |r| <= |s| && r == s[..|r|]
    ensures |r| > 0 ==> !drop(r[|r| - 1])
    decreases |s|
  {
    if |s| > 0 && drop(s[|s| - 1]) then TrimEnd(s[..|s| - 1], drop) else s
  }

  /** Neither starts nor ends with whitespace. */
  predicate IsStripped(s: string) {
    |s| > 0 ==> !IsSpace(s[0]) && !IsSpace(s[|s| - 1])
  }

  /** Python's `s.strip()` (no argument: whitespace on both ends). */
  function Strip(s: string): (r: string)
    ensures |r| <= |s|
  {
    TrimSpaceEnd(TrimSpaceStart(s))
  }

  /** `strip()` leaves no whitespace at either end, and leaves nothing exactly
      when the text is all whitespace. */
  lemma StripSpec(s: string)
    ensures IsStripped(Strip(s))
    ensures Strip(s) == [] <==> AllSpace(s)
  {
    var front := TrimSpaceStart(s);
    TrimSpaceStartSpec(s);
    TrimSpaceEndSpec(front);
    var r := Strip(s);
    if |r| > 0 {
      assert r[0] == front[0];
    }
    if front == [] {
      assert s[..|s|] == s;
    } else if r != [] {
      var i :| 0 <= i < |r| && !IsSpace(r[i]);
      assert s[|s| - |front| + i] == r[i];
    }
  }

  /** `strip()` cuts the text into whitespace, the stripped text, and whitespace. */
  lemma StripDecompose(s: string)
    ensures exists k :: (0 <= k <= |s| - |Strip(s)|
      && s[k..k + |Strip(s)|] == Strip(s)
      && AllSpace(s[..k]) && AllSpace(s[k + |Strip(s)|..]))
  {
    var front := TrimSpaceStart(s);
    TrimSpaceStartSpec(s);
    TrimSpaceEndSpec(front);
    var r := Strip(s);
    var k := |s| - |front|;
    assert s[k..k + |r|] == front[..|r|];
    assert s[k + |r|..] == front[|r|..];
  }

  /** Python's `s.strip("/")`. */
  function StripSlashes(s: string): (r: string)
    ensures |r| <= |s|
    ensures |r| > 0 ==> r[0] != '/' && r[|r| - 1] != '/'
  {
    TrimEnd(TrimStart(s, IsSlash), IsSlash)
  }

  predicate IsSlash(c: char) {
    c == '/'
  }

  /** Dropping a leading run of `drop` characters in front of a kept one. */
  lemma {:induction false} TrimStartPrefix(a: string, t: string, drop: char -> bool)
    requires forall i :: 0 <= i < |a| ==> drop(a[i])
    requires |t| > 0 && !drop(t[0])
    ensures TrimStart(a + t, drop) == t
    decreases |a|
  {
    if a == [] {
      assert a + t == t;
    } else {
      assert (a + t)[1..] == a[1..] + t;
      TrimStartPrefix(a[1..], t, drop);
    }
  }

  /** Dropping a trailing run of `drop` characters after a kept one. */
  lemma {:induction false} TrimEndSuffix(t: string, b: string, drop: char -> bool)
    requires forall i :: 0 <= i < |b| ==> drop(b[i])
    requires |t| > 0 && !drop(t[|t| - 1])
    ensures TrimEnd(t + b, drop) == t
    decreases |b|
  {
    if b == [] {
      assert t + b == t;
    } else {
      var n := |b| - 1;
      assert (t + b)[..|t + b| - 1] == t + b[..n];
      TrimEndSuffix(t, b[..n], drop);
    }
  }

  /** `strip("/")` removes exactly the slashes around a text that neither
      starts nor ends with one. */
  lemma StripSlashesAround(a: string, t: string, b: string)
    requires forall i :: 0 <= i < |a| ==> a[i] == '/'
    requires forall i :: 0 <= i < |b| ==> b[i] == '/'
    requires |t| > 0 && t[0] != '/' && t[|t| - 1] != '/'
    ensures StripSlashes(a + t + b) == t
  {
    assert a + t + b == a + (t + b);
    TrimStartPrefix(a, t + b, IsSlash);
    TrimEndSuffix(t, b, IsSlash);
  }

  lemma {:induction false} TrimSpaceStartAppend(a: string, b: string)
    ensures TrimSpaceStart(a) != [] ==> TrimSpaceStart(a + b) == TrimSpaceStart(a) + b
    ensures TrimSpaceStart(a) == [] ==> TrimSpaceStart(a + b) == TrimSpaceStart(b)
    decreases |a|
  {
    if |a| > 0 && IsSpace(a[0]) {
      assert (a + b)[1..] == a[1..] + b;
      TrimSpaceStartAppend(a[1..], b);
    } else if |a| == 0 {
      assert a + b == b;
    }
  }

  lemma {:induction false} TrimSpaceEndPrepend(a: string, b: string)
    ensures TrimSpaceEnd(b) != [] ==> TrimSpaceEnd(a + b) == a + TrimSpaceEnd(b)
    ensures TrimSpaceEnd(b) == [] ==> TrimSpaceEnd(a + b) == TrimSpaceEnd(a)
    decreases |b|
  {
    if |b| > 0 && IsSpace(b[|b| - 1]) {
      assert (a + b)[..|a + b| - 1] == a + b[..|b| - 1];
      TrimSpaceEndPrepend(a, b[..|b| - 1]);
    } else if |b| == 0 {
      assert a + b == a;
    }
  }

  lemma {:induction false} TrimSpaceStartAllSpace(s: string)
    requires AllSpace(s)
    ensures TrimSpaceStart(s) == []
    decreases |s|
  {
    if |s| > 0 {
      TrimSpaceStartAllSpace(s[1..]);
    }
  }

  lemma {:induction false} TrimSpaceEndAllSpace(s: string)
    requires AllSpace(s)
    ensures TrimSpaceEnd(s) == []
    decreases |s|
  {
    if |s| > 0 {
      TrimSpaceEndAllSpace(s[..|s| - 1]);
    }
  }

  /** Whitespace around a text never matters to `strip`: together with
      `StripFixpoint` this pins `Strip` down completely. */
  lemma StripPadded(w1: string, x: string, w2: string)
    requires AllSpace(w1) && AllSpace(w2)
    ensures Strip(w1 + x + w2) == Strip(x)
  {
    var padded := w1 + x + w2;
    assert padded == w1 + (x + w2);
    TrimSpaceStartAllSpace(w1);
    TrimSpaceStartAppend(w1, x + w2);
    assert TrimSpaceStart(padded) == TrimSpaceStart(x + w2);
    StripAfterFront(x, w2);
  }

  /** Trailing whitespace does not survive `strip`, whatever precedes it. */
  lemma StripAfterFront(x: string, w2: string)
    requires AllSpace(w2)
    ensures TrimSpaceEnd(TrimSpaceStart(x + w2)) == Strip(x)
  {
    var x' := TrimSpaceStart(x);
    TrimSpaceStartAppend(x, w2);
    if x' == [] {
      TrimSpaceStartAllSpace(w2);
    } else {
      TrimSpaceEndAllSpace(w2);
      TrimSpaceEndPrepend(x', w2);
    }
  }

  /** A text that neither starts nor ends with whitespace is its own strip. */
  lemma StripFixpoint(s: string)
    requires IsStripped(s)
    ensures Strip(s) == s
  {
  }

  lemma StripIdempotent(s: string)
    ensures Strip(Strip(s)) == Strip(s)
  {
    StripSpec(s);
    StripFixpoint(Strip(s));
  }

  // ---------------------------------------------------------------------------
  // Case mapping
  // ---------------------------------------------------------------------------

  function UpperChar(c: char): char {
    if IsLower(c) then (c as int - 32) as char else c
  }

  /** Python's `s.upper()` on ASCII letters. */
  function Upper(s: string): (r: string)
    ensures |r| == |s|
    ensures forall i :: 0 <= i < |r| ==> !IsLower(r[i])
    ensures forall i :: 0 <= i < |s| && !IsLower(s[i]) ==> r[i] == s[i]
    ensures forall i :: 0 <= i < |s| && IsLower(s[i]) ==>
      'A' <= r[i] <= 'Z' && r[i] as int - 'A' as int == s[i] as int - 'a' as int
  {
    seq(|s|, i requires 0 <= i < |s| => UpperChar(s[i]))
  }

  lemma UpperIdempotent(s: string)
    ensures Upper(Upper(s)) == Upper(s)
  {
  }

  // ---------------------------------------------------------------------------
  // Filtering and replacing characters
  // ---------------------------------------------------------------------------

  /** `re.sub(r"\D", "", s)` and `"".join(ch for ch in s if ch.isdigit())`:
      the digit characters of `s`, in order. */
  function OnlyDigits(s: string): (r: string)
    ensures AllDigits(r) && |r| <= |s|
  {
    if s == [] then [] else (if IsDigit(s[0]) then [s[0]] else []) + OnlyDigits(s[1..])
  }

  /** Digit filtering distributes over concatenation: with the one-character
      cases this says `OnlyDigits` keeps exactly the digits, in order. */
  lemma {:induction false} OnlyDigitsAppend(a: string, b: string)
    ensures OnlyDigits(a + b) == OnlyDigits(a) + OnlyDigits(b)
  {
    if a == [] {
      assert a + b == b;
    } else {
      assert (a + b)[1..] == a[1..] + b;
      assert (a + b)[0] == a[0];
      OnlyDigitsAppend(a[1..], b);
      var h := if IsDigit(a[0]) then [a[0]] else [];
      calc {
        OnlyDigits(a + b);
        h + OnlyDigits(a[1..] + b);
        h + (OnlyDigits(a[1..]) + OnlyDigits(b));
        (h + OnlyDigits(a[1..])) + OnlyDigits(b);
      }
    }
  }

  lemma {:induction false} OnlyDigitsOfDigits(s: string)
    requires AllDigits(s)
    ensures OnlyDigits(s) == s
  {
    if s != [] {
      OnlyDigitsOfDigits(s[1..]);
    }
  }

  lemma OnlyDigitsIdempotent(s: string)
    ensures OnlyDigits(OnlyDigits(s)) == OnlyDigits(s)
  {
    OnlyDigitsOfDigits(OnlyDigits(s));
  }

  /** `s.replace(c, "")`. */
  function Remove(s: string, c: char): (r: string)
    ensures |r| <= |s|
    ensures c !in r
  {
    if s == [] then [] else (if s[0] == c then [] else [s[0]]) + Remove(s[1..], c)
  }

  /** `s.replace(a, b)` for single characters `a` and `b`. */
  function Replace(s: string, a: char, b: char): (r: string)
    ensures |r| == |s|
    ensures a != b ==> a !in r
    ensures forall i :: 0 <= i < |s| && s[i] != a ==> r[i] == s[i]
  {
    seq(|s|, i requires 0 <= i < |s| => if s[i] == a then b else s[i])
  }

  lemma {:induction false} RemoveAppend(a: string, b: string, c: char)
    ensures Remove(a + b, c) == Remove(a, c) + Remove(b, c)
  {
    if a == [] {
      assert a + b == b;
    } else {
      assert (a + b)[1..] == a[1..] + b;
      assert (a + b)[0] == a[0];
      RemoveAppend(a[1..], b, c);
      var h := if a[0] == c then [] else [a[0]];
      calc {
        Remove(a + b, c);
        h + Remove(a[1..] + b, c);
        h + (Remove(a[1..], c) + Remove(b, c));
        (h + Remove(a[1..], c)) + Remove(b, c);
      }
    }
  }

  lemma {:induction false} RemoveAbsent(s: string, c: char)
    requires c !in s
    ensures Remove(s, c) == s
  {
    if s != [] {
      RemoveAbsent(s[1..], c);
    }
  }

  /** `s.find(c)` when found, otherwise `|s|`. */
  function IndexOf(s: string, c: char): (i: nat)
    ensures i <= |s|
  {
    if s == [] then 0
    else if s[0] == c then 0
    else IndexOf(s[1..], c) + 1
  }

  /** `IndexOf` finds the first occurrence. */
  lemma {:induction false} IndexOfSpec(s: string, c: char)
    ensures var i := IndexOf(s, c);
      (i < |s| ==> s[i] == c) && c !in s[..i]
  {
    if s != [] && s[0] != c {
      IndexOfSpec(s[1..], c);
      var j := IndexOf(s[1..], c);
      assert s[..j + 1] == [s[0]] + s[1..][..j];
    }
  }

  function EndsWith(s: string, c: char): bool {
    |s| > 0 && s[|s| - 1] == c
  }

  // ---------------------------------------------------------------------------
  // Numerals
  // ---------------------------------------------------------------------------

  /** Python's `int(s)` for a string of ASCII digits. */
  function DigitsValue(s: string): nat
    requires AllDigits(s)
  {
    if s == [] then 0 else 10 * DigitsValue(s[..|s| - 1]) + DigitValue(s[|s| - 1])
  }

  /** Python's `str(n)` for `n >= 0`. */
  function NatToString(n: nat): (r: string)
    ensures |r| > 0 && AllDigits(r)
    ensures DigitsValue(r) == n
    ensures r[0] == '0' ==> r == "0"
    decreases n
  {
    if n < 10 then [DigitChar(n)]
    else
      var p := NatToString(n / 10);
      var r := p + [DigitChar(n % 10)];
      assert r[..|r| - 1] == p;
      r
  }

  /** Python's `str(i)`. */
  function IntToString(i: int): (r: string)
    ensures |r| > 0
    ensures i >= 0 ==> AllDigits(r) && DigitsValue(r) == i
    ensures i < 0 ==> r[0] == '-' && AllDigits(r[1..]) && DigitsValue(r[1..]) == -i
  {
    if i < 0 then "-" + NatToString(-i) else NatToString(i)
  }

  /** Python's default limit on the number of digits `str()` writes for an
      int (`sys.get_int_max_str_digits()`, 4300 since CPython 3.11); above
      it `str()` raises ValueError. */
  const MaxStrDigits: nat := 4300

  /** `str(i)` would exceed the limit. */
  predicate ExceedsStrDigits(i: int) {
    |NatToString(if i < 0 then -i else i)| > MaxStrDigits
  }

  function Zeros(n: nat): (r: string)
    ensures |r| == n && forall i :: 0 <= i < n ==> r[i] == '0'
  {
    seq(n, _ => '0')
  }

  /** Python's `s.zfill(width)`: left-pads with zeros, keeping a leading sign first. */
  function ZFill(s: string, width: nat): (r: string)
    ensures |r| == if |s| >= width then |s| else width
    ensures |s| >= width ==> r == s
    ensures AllDigits(s) ==> AllDigits(r) && DigitsValue(r) == DigitsValue(s)
  {
    if |s| >= width then s
    else if |s| > 0 && (s[0] == '+' || s[0] == '-') then [s[0]] + Zeros(width - |s|) + s[1..]
    else
      var r := Zeros(width - |s|) + s;
      LeadingZeros(width - |s|, s);
      r
  }

  lemma {:induction false} LeadingZeros(n: nat, s: string)
    ensures AllDigits(s) ==> AllDigits(Zeros(n) + s) && DigitsValue(Zeros(n) + s) == DigitsValue(s)
    decreases |s|
  {
    if !AllDigits(s) {
    } else if s == [] {
      assert Zeros(n) + s == Zeros(n);
      ZerosValue(n);
    } else {
      var t := Zeros(n) + s;
      assert t[..|t| - 1] == Zeros(n) + s[..|s| - 1];
      LeadingZeros(n, s[..|s| - 1]);
    }
  }

  lemma {:induction false} ZerosValue(n: nat)
    ensures DigitsValue(Zeros(n)) == 0
  {
    if n > 0 {
      assert Zeros(n)[..n - 1] == Zeros(n - 1);
      ZerosValue(n - 1);
    }
  }

  // ---------------------------------------------------------------------------
  // Joining and splitting
  // ---------------------------------------------------------------------------

  /** Python's `sep.join(parts)`. */
  function Join(parts: seq<string>, sep: string): string {
    if |parts| == 0 then ""
    else if |parts| == 1 then parts[0]
    else parts[0] + sep + Join(parts[1..], sep)
  }

  /** Python's `s.split(c)`. */
  function Split(s: string, c: char): (r: seq<string>)
    ensures |r| > 0
    ensures forall k :: 0 <= k < |r| ==> c !in r[k]
    decreases |s|
  {
    var i := IndexOf(s, c);
    IndexOfSpec(s, c);
    if i == |s| then [s] else [s[..i]] + Split(s[i + 1..], c)
  }

  /** Splitting undoes joining when no part contains the separator. */
  lemma {:induction false} SplitJoin(parts: seq<string>, c: char)
    requires |parts| > 0
    requires forall k :: 0 <= k < |parts| ==> c !in parts[k]
    ensures Split(Join(parts, [c]), c) == parts
    decreases |parts|
  {
    if |parts| == 1 {
      IndexOfAbsent(parts[0], c);
    } else {
      var p := parts[0];
      var rest := Join(parts[1..], [c]);
      var s := p + [c] + rest;
      IndexOfAfter(p, rest, c);
      assert s[..|p|] == p;
      assert s[|p| + 1..] == rest;
      SplitJoin(parts[1..], c);
    }
  }

  lemma IndexOfAfter(p: string, rest: string, c: char)
    requires c !in p
    ensures IndexOf(p + [c] + rest, c) == |p|
  {
    assert p + [c] + rest == p + ([c] + rest);
    IndexOfSkip(p, [c] + rest, c);
  }

  /** A prefix without `c` only shifts where `c` is found. */
  lemma {:induction false} IndexOfSkip(p: string, rest: string, c: char)
    requires c !in p
    ensures IndexOf(p + rest, c) == |p| + IndexOf(rest, c)
    decreases |p|
  {
    if p == [] {
      assert p + rest == rest;
    } else {
      assert (p + rest)[0] == p[0];
      assert (p + rest)[1..] == p[1..] + rest;
      IndexOfSkip(p[1..], rest, c);
    }
  }

  lemma IndexOfAbsent(s: string, c: char)
    requires c !in s
    ensures IndexOf(s, c) == |s|
  {
    assert s + [] == s;
    IndexOfSkip(s, [], c);
  }
}

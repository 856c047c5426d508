/** The parts of Python's `str` behaviour the modelled code relies on:
    whitespace, `strip`, ASCII case mapping, `startswith`, `in`, `split`,
    `join`, `replace`, `str(int)` and `int(str)`. */
module Text {
  import opened Outcomes

  /** `str.isspace()`: the characters Python's `strip()`, `split()` and the
      regular-expression class `\s` treat as whitespace. */
  predicate IsSpace(c: char) {
    ('\t' <= c <= '\r') || ('\U{1C}' <= c <= ' ') || c == '\U{85}' || c == '\U{A0}'
    || c == '\U{1680}' || ('\U{2000}' <= c <= '\U{200A}') || c == '\U{2028}'
    || c == '\U{2029}' || c == '\U{202F}' || c == '\U{205F}' || c == '\U{3000}'
  }

  predicate IsDigit(c: char) { '0' <= c <= '9' }

  predicate IsAsciiLetter(c: char) { ('a' <= c <= 'z') || ('A' <= c <= 'Z') }

  /** Leading whitespace removed (`lstrip()`). */
  function LStrip(s: string): (r: string)
    ensures |r| <= |s|
  {
    if |s| > 0 && IsSpace(s[0]) then LStrip(s[1..]) else s
  }

  lemma {:induction false} LStripStart(s: string)
    ensures LStrip(s) == [] || !IsSpace(LStrip(s)[0])
    decreases |s|
  {
    if |s| > 0 && IsSpace(s[0]) { LStripStart(s[1..]); }
  }

  /** Trailing whitespace removed (`rstrip()`). */
  function RStrip(s: string): (r: string)
    ensures |r| <= |s|
  {
    if |s| > 0 && IsSpace(s[|s| - 1]) then RStrip(s[..|s| - 1]) else s
  }

  lemma {:induction false} RStripEnds(s: string)
    ensures RStrip(s) == [] || (RStrip(s)[0] == s[0] && !IsSpace(RStrip(s)[|RStrip(s)| - 1]))
    decreases |s|
  {
    if |s| > 0 && IsSpace(s[|s| - 1]) { RStripEnds(s[..|s| - 1]); }
  }

  /** What `lstrip()` removed is a run of whitespace, and what it kept is the rest. */
  lemma {:induction false} LStripSuffix(s: string)
    ensures LStrip(s) == s[|s| - |LStrip(s)|..]
    ensures forall i :: 0 <= i < |s| - |LStrip(s)| ==> IsSpace(s[i])
    decreases |s|
  {
    if |s| > 0 && IsSpace(s[0]) {
      LStripSuffix(s[1..]);
      assert s[1..][|s| - 1 - |LStrip(s)|..] == s[|s| - |LStrip(s)|..];
      forall i | 0 < i < |s| - |LStrip(s)| ensures IsSpace(s[i]) {
        assert s[i] == s[1..][i - 1];
      }
    }
  }

  /** What `rstrip()` removed is a run of whitespace, and what it kept is the rest. */
  lemma {:induction false} RStripPrefix(s: string)
    ensures RStrip(s) == s[..|RStrip(s)|]
    ensures forall i :: |RStrip(s)| <= i < |s| ==> IsSpace(s[i])
    decreases |s|
  {
    if |s| > 0 && IsSpace(s[|s| - 1]) {
      RStripPrefix(s[..|s| - 1]);
      assert s[..|s| - 1][..|RStrip(s)|] == s[..|RStrip(s)|];
      forall i | |RStrip(s)| <= i < |s| - 1 ensures IsSpace(s[i]) {
        assert s[i] == s[..|s| - 1][i];
      }
    }
  }

  /** `strip()`: a contiguous piece of `s` with no whitespace at either end. */
  function Strip(s: string): (r: string)
    ensures |r| <= |s|
  {
    RStrip(LStrip(s))
  }

  /** Neither end of a stripped string is whitespace. */
  lemma StripEnds(s: string)
    ensures Strip(s) == [] || (!IsSpace(Strip(s)[0]) && !IsSpace(Strip(s)[|Strip(s)| - 1]))
  {
    LStripStart(s);
    RStripEnds(LStrip(s));
  }

  /** Text with no whitespace at either end is its own strip. */
  lemma StripKeeps(s: string)
    requires s == [] || (!IsSpace(s[0]) && !IsSpace(s[|s| - 1]))
    ensures Strip(s) == s
  {
  }

  /** `lstrip(c)`: the leading run of `c` removed. */
  function LStripChar(s: string, c: char): (r: string)
    ensures |r| <= |s| && r == s[|s| - |r|..]
    ensures r == [] || r[0] != c
    decreases |s|
  {
    if |s| > 0 && s[0] == c then LStripChar(s[1..], c) else s
  }

  /** What `lstrip(c)` removed is a run of `c`. */
  lemma {:induction false} LStripCharRun(s: string, c: char)
    ensures forall i :: 0 <= i < |s| - |LStripChar(s, c)| ==> s[i] == c
    decreases |s|
  {
    if |s| > 0 && s[0] == c {
      LStripCharRun(s[1..], c);
      forall i | 0 < i < |s| - |LStripChar(s, c)| ensures s[i] == c {
        assert s[i] == s[1..][i - 1];
      }
    }
  }

  /** `rstrip(c)`: the trailing run of `c` removed. */
  function RStripChar(s: string, c: char): (r: string)
    ensures |r| <= |s| && r == s[..|r|]
    ensures r == [] || (r[0] == s[0] && r[|r| - 1] != c)
    decreases |s|
  {
    if |s| > 0 && s[|s| - 1] == c then RStripChar(s[..|s| - 1], c) else s
  }

  /** `strip(c)` for a single character `c`: what is kept is the piece of
      the input between its leading and its trailing run of `c`. */
  function StripChar(s: string, c: char): (r: string)
    ensures |r| <= |s|
    ensures r == [] || (r[0] != c && r[|r| - 1] != c)
  {
    RStripChar(LStripChar(s, c), c)
  }

  function UpperChar(c: char): char {
    if 'a' <= c <= 'z' then (c as int - 32) as char else c
  }

  function LowerChar(c: char): char {
    if 'A' <= c <= 'Z' then (c as int + 32) as char else c
  }

  /** `upper()`, for ASCII letters. */
  function Upper(s: string): (r: string)
    ensures |r| == |s| && forall i :: 0 <= i < |s| ==> r[i] == UpperChar(s[i])
  {
    seq(|s|, i requires 0 <= i < |s| => UpperChar(s[i]))
  }

  /** `lower()`, for ASCII letters. */
  function Lower(s: string): (r: string)
    ensures |r| == |s| && forall i :: 0 <= i < |s| ==> r[i] == LowerChar(s[i])
  {
    seq(|s|, i requires 0 <= i < |s| => LowerChar(s[i]))
  }

  predicate StartsWith(s: string, prefix: string) {
    |prefix| <= |s| && s[..|prefix|] == prefix
  }

  /** `line.strip().upper().startswith(marker)`: the test by which the model
      replies' section markers are recognised. */
  predicate HasMarker(line: string, marker: string) {
    StartsWith(Upper(Strip(line)), marker)
  }

  /** Python's substring test `t in s`. */
  predicate Contains(s: string, t: string)
    decreases |s|
  {
    StartsWith(s, t) || (|s| > 0 && Contains(s[1..], t))
  }

  /** `t in s` holds exactly when `t` occurs at some position of `s`. */
  lemma {:induction false} ContainsAt(s: string, t: string)
    ensures Contains(s, t) <==> exists i :: 0 <= i <= |s| - |t| && StartsWith(s[i..], t)
    decreases |s|
  {
    assert s[0..] == s;
    if |s| > 0 {
      ContainsAt(s[1..], t);
      if Contains(s[1..], t) {
        var i :| 0 <= i <= |s[1..]| - |t| && StartsWith(s[1..][i..], t);
        assert s[i + 1..] == s[1..][i..];
      }
      forall i | 0 < i <= |s| - |t| && StartsWith(s[i..], t)
        ensures Contains(s[1..], t)
      {
        assert s[1..][i - 1..] == s[i..];
      }
    }
  }

  /** Index of the first `c` in `s`, or `|s|` when there is none. */
  function Find(s: string, c: char): (i: nat)
    ensures i <= |s| && (i < |s| ==> s[i] == c)
    ensures forall k :: 0 <= k < i ==> s[k] != c
  {
    if s == [] then 0 else if s[0] == c then 0 else 1 + Find(s[1..], c)
  }

  /** `s.split(sep, limit)` for a one-character separator: at most `limit`
      splits, from the left. */
  function SplitLimit(s: string, sep: char, limit: nat): (parts: seq<string>)
    ensures 1 <= |parts| <= limit + 1
    ensures forall k :: 0 <= k < |parts| - 1 ==> sep !in parts[k]
    ensures |parts| < limit + 1 ==> sep !in parts[|parts| - 1]
    decreases limit
  {
    var i := Find(s, sep);
    if limit == 0 || i == |s| then [s] else [s[..i]] + SplitLimit(s[i + 1..], sep, limit - 1)
  }

  /** `s.split(sep)`: every separator splits. */
  function Split(s: string, sep: char): (parts: seq<string>)
    ensures |parts| >= 1
    ensures forall k :: 0 <= k < |parts| ==> sep !in parts[k]
    decreases |s|
  {
    var i := Find(s, sep);
    if i == |s| then [s] else [s[..i]] + Split(s[i + 1..], sep)
  }

  /** `sep.join(parts)`. */
  function Join(parts: seq<string>, sep: char): string
    decreases |parts|
  {
    if |parts| == 0 then [] else if |parts| == 1 then parts[0]
    else parts[0] + [sep] + Join(parts[1..], sep)
  }

  /** Splitting and joining again on the same separator gives the text back. */
  lemma {:induction false} JoinSplit(s: string, sep: char)
    ensures Join(Split(s, sep), sep) == s
    decreases |s|
  {
    var i := Find(s, sep);
    if i < |s| {
      var rest := s[i + 1..];
      var parts := Split(s, sep);
      assert parts == [s[..i]] + Split(rest, sep);
      assert parts[1..] == Split(rest, sep);
      JoinSplit(rest, sep);
      assert Join(parts, sep) == s[..i] + [sep] + rest;
      assert s == s[..i] + [sep] + rest;
    }
  }

  /** Joining pieces that hold no separator and splitting again gives the pieces back. */
  lemma {:induction false} SplitJoin(parts: seq<string>, sep: char)
    requires |parts| >= 1
    requires forall k :: 0 <= k < |parts| ==> sep !in parts[k]
    ensures Split(Join(parts, sep), sep) == parts
    decreases |parts|
  {
    if |parts| == 1 {
      assert Find(parts[0], sep) == |parts[0]|;
    } else {
      var rest := Join(parts[1..], sep);
      var s := parts[0] + [sep] + rest;
      assert Find(s, sep) == |parts[0]| by {
        assert s == parts[0] + ([sep] + rest);
        FindPast(parts[0], [sep] + rest, sep);
      }
      assert s[..|parts[0]|] == parts[0];
      assert s[|parts[0]| + 1..] == rest;
      SplitJoin(parts[1..], sep);
    }
  }

  /** Splitting text joined at a separator splits each side separately. */
  lemma {:induction false} SplitAppend(a: string, b: string, sep: char)
    ensures Split(a + [sep] + b, sep) == Split(a, sep) + Split(b, sep)
    decreases |a|, 1
  {
    if Find(a, sep) == |a| {
      SplitAppendLast(a, b, sep);
    } else {
      SplitAppendInner(a, b, sep);
    }
  }

  /** The case of `SplitAppend` where `a` holds no separator. */
  lemma SplitAppendLast(a: string, b: string, sep: char)
    requires Find(a, sep) == |a|
    ensures Split(a + [sep] + b, sep) == Split(a, sep) + Split(b, sep)
  {
    var s := a + [sep] + b;
    assert s == a + ([sep] + b);
    FindPast(a, [sep] + b, sep);
    assert s[..|a|] == a && s[|a| + 1..] == b;
  }

  /** The case of `SplitAppend` where `a` holds a separator: the first piece
      comes from `a`, the rest from splitting what follows it. */
  lemma {:induction false} SplitAppendInner(a: string, b: string, sep: char)
    requires Find(a, sep) < |a|
    ensures Split(a + [sep] + b, sep) == Split(a, sep) + Split(b, sep)
    decreases |a|, 0
  {
    var s := a + [sep] + b;
    var i := Find(a, sep);
    assert s == a + ([sep] + b);
    FindPrefix(a, [sep] + b, sep);
    assert s[..i] == a[..i];
    assert s[i + 1..] == a[i + 1..] + [sep] + b;
    SplitAppend(a[i + 1..], b, sep);
  }

  /** A separator found in `a` is found at the same place in `a + b`. */
  lemma {:induction false} FindPrefix(a: string, b: string, c: char)
    requires Find(a, c) < |a|
    ensures Find(a + b, c) == Find(a, c)
    decreases |a|
  {
    if a[0] != c {
      assert (a + b)[1..] == a[1..] + b;
      FindPrefix(a[1..], b, c);
    }
  }

  lemma {:induction false} FindPast(a: string, b: string, c: char)
    requires c !in a && |b| > 0 && b[0] == c
    ensures Find(a + b, c) == |a|
    decreases |a|
  {
    if a != [] {
      assert (a + b)[1..] == a[1..] + b;
      FindPast(a[1..], b, c);
    }
  }

  /** `s.replace(pat, rep)`: every non-overlapping occurrence, scanning left to right. */
  function ReplaceAll(s: string, pat: string, rep: string): string
    requires |pat| > 0
    decreases |s|
  {
    if StartsWith(s, pat) then rep + ReplaceAll(s[|pat|..], pat, rep)
    else if s == [] then []
    else [s[0]] + ReplaceAll(s[1..], pat, rep)
  }

  /** Text that does not contain the pattern is left alone by `replace`. */
  lemma {:induction false} ReplaceAbsent(s: string, pat: string, rep: string)
    requires |pat| > 0 && !Contains(s, pat)
    ensures ReplaceAll(s, pat, rep) == s
    decreases |s|
  {
    if s != [] {
      ReplaceAbsent(s[1..], pat, rep);
    }
  }

  /** Length of the leading run of non-whitespace characters. */
  function WordLength(s: string): (n: nat)
    ensures n <= |s| && (n < |s| ==> IsSpace(s[n]))
    ensures forall k :: 0 <= k < n ==> !IsSpace(s[k])
  {
    if s == [] || IsSpace(s[0]) then 0 else 1 + WordLength(s[1..])
  }

  /** `s.split(maxsplit=1)`: no element for blank text, else the first word
      and, when more text follows, that text with its leading whitespace removed. */
  function SplitWordOnce(s: string): (parts: seq<string>)
    ensures |parts| <= 2
    ensures |parts| == 0 <==> LStrip(s) == []
    ensures |parts| >= 1 ==> parts[0] != [] && !IsSpace(parts[0][0])
    ensures |parts| == 2 ==> parts[1] != []
  {
    LStripStart(s);
    var l := LStrip(s);
    if l == [] then []
    else
      var n := WordLength(l);
      var word := l[..n];
      var rest := LStrip(l[n..]);
      if rest == [] then [word] else [word, rest]
  }

  function DigitChar(d: nat): char
    requires d < 10
  {
    ('0' as int + d) as char
  }

  /** `str(n)` for a non-negative integer: decimal, no leading zeros. */
  function NatToString(n: nat): (s: string)
    ensures |s| >= 1 && forall k :: 0 <= k < |s| ==> IsDigit(s[k])
  {
    if n < 10 then [DigitChar(n)] else NatToString(n / 10) + [DigitChar(n % 10)]
  }

  /** `str(i)` for any integer. */
  function IntToString(i: int): string {
    if i < 0 then "-" + NatToString(-i) else NatToString(i)
  }

  /** Digits with single underscores allowed between them, as `int()` accepts. */
  predicate WellFormedDigits(b: string)
    decreases |b|
  {
    |b| > 0 && IsDigit(b[0])
    && (|b| == 1 || (b[1] == '_' && |b| > 2 && WellFormedDigits(b[2..])) || (b[1] != '_' && WellFormedDigits(b[1..])))
  }

  /** Decimal value of digits, underscores ignored. */
  function DigitsValue(b: string): nat
    decreases |b|
  {
    if b == [] then 0
    else
      var last := b[|b| - 1];
      if IsDigit(last) then DigitsValue(b[..|b| - 1]) * 10 + (last as int - '0' as int)
      else DigitsValue(b[..|b| - 1])
  }

  /** `int(s)` with base 10: surrounding whitespace, an optional sign, then
      ASCII digits with single underscores between them; anything else is
      the ValueError case, `None` here. */
  function ParseInt(s: string): Option<int> {
    var t := Strip(s);
    var neg := |t| > 0 && t[0] == '-';
    var body := if |t| > 0 && (t[0] == '-' || t[0] == '+') then t[1..] else t;
    if WellFormedDigits(body) then
      var v: int := DigitsValue(body);
      Some(if neg then -v else v)
    else None
  }

  /** A non-empty run of plain digits is accepted by `int()`. */
  lemma {:induction false} DigitsWellFormed(b: string)
    requires |b| >= 1 && forall k :: 0 <= k < |b| ==> IsDigit(b[k])
    ensures WellFormedDigits(b)
    decreases |b|
  {
    if |b| > 1 {
      assert b[1] != '_';
      DigitsWellFormed(b[1..]);
    }
  }

  lemma {:induction false} NatToStringValue(n: nat)
    ensures DigitsValue(NatToString(n)) == n
    ensures WellFormedDigits(NatToString(n))
  {
    DigitsWellFormed(NatToString(n));
    if n >= 10 {
      NatToStringValue(n / 10);
      var s := NatToString(n);
      assert s[..|s| - 1] == NatToString(n / 10);
    }
  }

  lemma {:induction false} StripDigits(s: string)
    requires |s| >= 1 && (IsDigit(s[0]) || s[0] == '-') && IsDigit(s[|s| - 1])
    ensures Strip(s) == s
  {
  }

  /** `int(str(i)) == i`: the decimal rendering of an integer reads back as that integer. */
  lemma IntToStringRoundTrip(i: int)
    ensures ParseInt(IntToString(i)) == Some(i)
  {
    var n: nat := if i < 0 then -i else i;
    NatToStringValue(n);
    var s := IntToString(i);
    var d := NatToString(n);
    StripDigits(s);
    if i < 0 {
      assert s == "-" + d && s[0] == '-';
      assert s[1..] == d;
      assert ParseInt(s) == Some(-(DigitsValue(d) as int));
    } else {
      assert s == d && IsDigit(s[0]);
      assert ParseInt(s) == Some(DigitsValue(d));
    }
  }
}

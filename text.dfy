/**
 * The parts of Python's `str` and `bytes` behaviour the portal relies on:
 * `find`, `split(sep)`, `split(sep, 1)`, `rsplit(sep, 1)`, `split()`, `strip()`,
 * `upper()` (ASCII letters), `in`, `startswith`, `str(int)`, `int(str)`,
 * `sep.join(...)` and `str.encode('utf-8')`.
 */
module Text {
  import opened Common

  // ---------------------------------------------------------------------------
  // Searching
  // ---------------------------------------------------------------------------

  /** `pat` occurs in `s` at index `j`. */
  predicate MatchAt(s: string, pat: string, j: int)
  {
    0 <= j && j + |pat| <= |s| && s[j..j + |pat|] == pat
  }

  /** No character of `s` is `c`. */
  predicate Free(s: string, c: char)
  {
    forall i :: 0 <= i < |s| ==> s[i] != c
  }

  lemma ShiftMatch(s: string, pat: string)
    requires |s| > 0
    ensures forall j :: 1 <= j ==> (MatchAt(s, pat, j) <==> MatchAt(s[1..], pat, j - 1))
  {
    forall j | 1 <= j
      ensures MatchAt(s, pat, j) <==> MatchAt(s[1..], pat, j - 1)
    {
      if j + |pat| <= |s| {
        var x, y := s[j..j + |pat|], s[1..][j - 1..j - 1 + |pat|];
        assert forall m :: 0 <= m < |pat| ==> x[m] == y[m];
        assert x == y;
      }
    }
  }

  /** Index of the first occurrence of `pat` in `s` (Python's `s.find(pat)`, `None` for -1). */
  function Find(s: string, pat: string): (r: Option<nat>)
    requires |pat| > 0
    ensures r.Some? ==> MatchAt(s, pat, r.value)
    ensures r.Some? ==> forall j :: 0 <= j < r.value ==> !MatchAt(s, pat, j)
    ensures r.None? ==> forall j :: !MatchAt(s, pat, j)
    decreases |s|
  {
    if |s| < |pat| then None
    else if s[..|pat|] == pat then Some(0)
    else
      var rest := Find(s[1..], pat);
      ShiftMatch(s, pat);
      match rest
      case None => None
      case Some(k) => Some(k + 1)
  }

  /** The first occurrence is the one at `k` when nothing matches before it. */
  lemma FindAt(s: string, pat: string, k: nat)
    requires |pat| > 0 && MatchAt(s, pat, k)
    requires forall j :: 0 <= j < k ==> !MatchAt(s, pat, j)
    ensures Find(s, pat) == Some(k)
  {
  }

  /** A prefix that lacks the first character of `pat` cannot hold an occurrence of it. */
  lemma FindAfterFree(a: string, pat: string, rest: string)
    requires |pat| > 0 && Free(a, pat[0])
    ensures Find(a + pat + rest, pat) == Some(|a|)
  {
    var s := a + pat + rest;
    assert s[|a|..|a| + |pat|] == pat;
    forall j | 0 <= j < |a|
      ensures !MatchAt(s, pat, j)
    {
    }
    FindAt(s, pat, |a|);
  }

  lemma FindAbsent(a: string, pat: string)
    requires |pat| > 0 && Free(a, pat[0])
    ensures Find(a, pat) == None
  {
    forall j
      ensures !MatchAt(a, pat, j)
    {
    }
  }

  /** Python's `pat in s`, for a non-empty `pat`. */
  predicate Contains(s: string, pat: string)
    requires |pat| > 0
  {
    Find(s, pat).Some?
  }

  /** Python's `s.startswith(p)`. */
  predicate StartsWith(s: string, p: string)
  {
    |p| <= |s| && s[..|p|] == p
  }

  /** A prefix is ruled out by one differing character. */
  lemma NotStartsWith(s: string, p: string, i: nat)
    requires i < |p| && i < |s| && s[i] != p[i]
    ensures !StartsWith(s, p)
  {
    if |p| <= |s| {
      assert s[..|p|][i] == s[i];
    }
  }

  /** Index of the last `c` in `s`. */
  function LastIndex(s: string, c: char): (r: Option<nat>)
    ensures r.Some? ==> r.value < |s| && s[r.value] == c && Free(s[r.value + 1..], c)
    ensures r.None? ==> Free(s, c)
  {
    if s == [] then None
    else if s[|s| - 1] == c then Some(|s| - 1)
    else
      var r := LastIndex(s[..|s| - 1], c);
      if r.Some? then
        assert s[r.value + 1..] == s[..|s| - 1][r.value + 1..] + [s[|s| - 1]];
        r
      else r
  }

  /** Python's `s.rsplit(c, 1)[0]`: the text before the last `c`, or all of `s`. */
  function RSplitHead(s: string, c: char): (r: string)
    ensures |r| <= |s| && r == s[..|r|]
    ensures Free(s, c) ==> r == s
    ensures !Free(s, c) ==> |r| < |s| && s[|r|] == c && Free(s[|r| + 1..], c)
  {
    match LastIndex(s, c)
    case None => s
    case Some(k) => s[..k]
  }

  /** Python's `s.split(marker, 1)[1]` when `marker in s`: the text after the first marker. */
  function After(s: string, marker: string): (r: string)
    requires |marker| > 0 && Contains(s, marker)
    ensures exists k :: && MatchAt(s, marker, k)
                        && (forall j :: 0 <= j < k ==> !MatchAt(s, marker, j))
                        && r == s[k + |marker|..]
  {
    var k := Find(s, marker).value;
    s[k + |marker|..]
  }

  /** Python's `s.replace(c, '')` for one character. */
  function RemoveChar(s: string, c: char): (r: string)
    ensures Free(r, c)
    ensures |r| <= |s|
    ensures Free(s, c) ==> r == s
  {
    if s == [] then []
    else (if s[0] == c then [] else [s[0]]) + RemoveChar(s[1..], c)
  }

  /** Removing a character from a concatenation removes it from each part. */
  lemma {:induction false} RemoveCharConcat(a: string, b: string, c: char)
    ensures RemoveChar(a + b, c) == RemoveChar(a, c) + RemoveChar(b, c)
    decreases |a|
  {
    if a != [] {
      var h := if a[0] == c then [] else [a[0]];
      assert (a + b)[0] == a[0];
      assert (a + b)[1..] == a[1..] + b;
      assert RemoveChar(a + b, c) == h + RemoveChar(a[1..] + b, c);
      RemoveCharConcat(a[1..], b, c);
      assert RemoveChar(a, c) == h + RemoveChar(a[1..], c);
      AppendAssoc(h, RemoveChar(a[1..], c), RemoveChar(b, c));
    } else {
      assert a + b == b;
    }
  }

  /** A single `c` between two pieces without one is all that goes. */
  lemma RemoveBetween(a: string, b: string, c: char)
    requires Free(a, c) && Free(b, c)
    ensures RemoveChar(a + [c] + b, c) == a + b
  {
    RemoveCharConcat(a + [c], b, c);
    RemoveCharConcat(a, [c], c);
    RemoveCharOne(c, c);
  }

  /** On one character: it goes exactly when it is the removed one. */
  lemma RemoveCharOne(d: char, c: char)
    ensures RemoveChar([d], c) == if d == c then [] else [d]
  {
  }

  /** Removing one character leaves out no other character's absence. */
  lemma RemoveCharKeeps(s: string, c: char, d: char)
    requires Free(s, d)
    ensures Free(RemoveChar(s, c), d)
  {
    if s != [] {
      RemoveCharKeeps(s[1..], c, d);
    }
  }

  // ---------------------------------------------------------------------------
  // Splitting and joining
  // ---------------------------------------------------------------------------

  /** The text before the first `sep`, or all of `s`: element 0 of `s.split(sep)`. */
  function Before(s: string, sep: string): string
    requires |sep| > 0
  {
    match Find(s, sep)
    case None => s
    case Some(k) => s[..k]
  }

  /** The text before the first `c` holds no `c`. */
  lemma BeforeFree(s: string, c: char)
    ensures Free(Before(s, [c]), c)
  {
    forall i | 0 <= i < |s|
      ensures MatchAt(s, [c], i) <==> s[i] == c
    {
      assert s[i..i + 1] == [s[i]];
    }
  }

  /** Python's `s.split(sep)` for a non-empty separator. */
  function Split(s: string, sep: string): (r: seq<string>)
    requires |sep| > 0
    ensures |r| >= 1 && r[0] == Before(s, sep)
    decreases |s|
  {
    match Find(s, sep)
    case None => [s]
    case Some(k) => [s[..k]] + Split(s[k + |sep|..], sep)
  }

  /** There is a second piece exactly when the separator occurs, and it runs up to the next separator. */
  lemma SplitSecond(s: string, sep: string)
    requires |sep| > 0
    ensures |Split(s, sep)| > 1 <==> Find(s, sep).Some?
    ensures Find(s, sep).Some? ==> Split(s, sep)[1] == Before(s[Find(s, sep).value + |sep|..], sep)
  {
  }

  /** Python's `s.split(sep, 1)`. */
  function SplitOnce(s: string, sep: string): (r: seq<string>)
    requires |sep| > 0
  {
    match Find(s, sep)
    case None => [s]
    case Some(k) => [s[..k], s[k + |sep|..]]
  }

  /** Python's `sep.join(ls)`. */
  function Join(ls: seq<string>, sep: string): string
  {
    if |ls| == 0 then ""
    else if |ls| == 1 then ls[0]
    else ls[0] + sep + Join(ls[1..], sep)
  }

  lemma RegroupTail(a: string, b: string, c: string, d: string, e: string)
    ensures a + b + c + d + e == a + b + (c + d + e)
  {
    var ab := a + b;
    assert ab + c + d + e == ab + (c + d + e);
  }

  lemma SplitAfterFree(a: string, sep: string, rest: string)
    requires |sep| > 0 && Free(a, sep[0])
    ensures Split(a + sep + rest, sep) == [a] + Split(rest, sep)
    ensures SplitOnce(a + sep + rest, sep) == [a, rest]
  {
    FindAfterFree(a, sep, rest);
    assert (a + sep + rest)[..|a|] == a;
    assert (a + sep + rest)[|a| + |sep|..] == rest;
  }

  lemma SplitFree(a: string, sep: string)
    requires |sep| > 0 && Free(a, sep[0])
    ensures Split(a, sep) == [a] && SplitOnce(a, sep) == [a]
  {
    FindAbsent(a, sep);
  }

  /** Splitting a joined list gives the list back when no element holds the separator's first character. */
  lemma {:induction false} JoinSplit(ls: seq<string>, sep: string)
    requires |ls| >= 1 && |sep| > 0
    requires forall k :: 0 <= k < |ls| ==> Free(ls[k], sep[0])
    ensures Split(Join(ls, sep), sep) == ls
    decreases |ls|
  {
    if |ls| == 1 {
      SplitFree(ls[0], sep);
    } else {
      SplitAfterFree(ls[0], sep, Join(ls[1..], sep));
      JoinSplit(ls[1..], sep);
    }
  }

  lemma FreeConcat(a: string, b: string, c: char)
    requires Free(a, c) && Free(b, c)
    ensures Free(a + b, c)
  {
  }

  // ---------------------------------------------------------------------------
  // Whitespace
  // ---------------------------------------------------------------------------

  /** Python's `str.isspace()` for one character. */
  predicate IsSpace(c: char)
  {
    || c == ' ' || c == '\t' || c == '\n' || c == '\r' || c == '\U{000B}' || c == '\U{000C}'
    || ('\U{001C}' <= c <= '\U{001F}') || c == '\U{0085}' || c == '\U{00A0}' || c == '\U{1680}'
    || ('\U{2000}' <= c <= '\U{200A}') || c == '\U{2028}' || c == '\U{2029}'
    || c == '\U{202F}' || c == '\U{205F}' || c == '\U{3000}'
  }

  predicate NoSpace(s: string)
  {
    forall i :: 0 <= i < |s| ==> !IsSpace(s[i])
  }

  /** Python's `s.lstrip()`. */
  function TrimLeft(s: string): (r: string)
    ensures |r| <= |s| && r == s[|s| - |r|..]
    ensures r == [] || !IsSpace(r[0])
    ensures forall i :: 0 <= i < |s| - |r| ==> IsSpace(s[i])
  {
    if |s| > 0 && IsSpace(s[0]) then TrimLeft(s[1..]) else s
  }

  /** Python's `s.rstrip()`. */
  function TrimRight(s: string): (r: string)
    ensures |r| <= |s| && r == s[..|r|]
    ensures r == [] || !IsSpace(r[|r| - 1])
    ensures forall i :: |r| <= i < |s| ==> IsSpace(s[i])
  {
    if |s| > 0 && IsSpace(s[|s| - 1]) then TrimRight(s[..|s| - 1]) else s
  }

  /** Python's `s.strip()`. */
  function Strip(s: string): string
  {
    TrimRight(TrimLeft(s))
  }

  lemma StripNoSpaceEnds(s: string)
    requires s == [] || (!IsSpace(s[0]) && !IsSpace(s[|s| - 1]))
    ensures Strip(s) == s
  {
  }

  /** Length of the longest prefix of `t` without whitespace. */
  function WordLength(t: string): (k: nat)
    ensures k <= |t|
    ensures forall m :: 0 <= m < k ==> !IsSpace(t[m])
    ensures k < |t| ==> IsSpace(t[k])
  {
    if |t| == 0 || IsSpace(t[0]) then 0 else 1 + WordLength(t[1..])
  }

  /** A token of `s.split()`: non-empty, no whitespace. */
  predicate IsWord(w: string)
  {
    |w| > 0 && NoSpace(w)
  }

  lemma PrefixIsWord(t: string, k: nat)
    requires 0 < k <= |t|
    requires forall m :: 0 <= m < k ==> !IsSpace(t[m])
    ensures IsWord(t[..k])
  {
  }

  lemma ConsWords(w: string, rest: seq<string>)
    requires IsWord(w)
    requires forall i :: 0 <= i < |rest| ==> IsWord(rest[i])
    ensures forall i :: 0 <= i < |rest| + 1 ==> IsWord(([w] + rest)[i])
  {
    forall i | 0 <= i < |rest| + 1
      ensures IsWord(([w] + rest)[i])
    {
      if i > 0 {
        assert ([w] + rest)[i] == rest[i - 1];
      }
    }
  }

  /** Python's `s.split()` with no argument: the maximal runs of non-whitespace. */
  function Words(s: string): (r: seq<string>)
    ensures forall i :: 0 <= i < |r| ==> IsWord(r[i])
    decreases |s|
  {
    var t := TrimLeft(s);
    if t == [] then []
    else
      var k := WordLength(t);
      PrefixIsWord(t, k);
      var rest := Words(t[k..]);
      ConsWords(t[..k], rest);
      [t[..k]] + rest
  }

  /** Text with a non-whitespace character has at least one word. */
  lemma WordsNonEmpty(s: string, i: nat)
    requires i < |s| && !IsSpace(s[i])
    ensures |Words(s)| >= 1
  {
  }

  lemma WordLengthIs(t: string, k: nat)
    requires k < |t| && IsSpace(t[k])
    requires forall m :: 0 <= m < k ==> !IsSpace(t[m])
    ensures WordLength(t) == k
  {
  }

  lemma FirstWord(t: string)
    requires |t| > 0 && !IsSpace(t[0])
    ensures Words(t) == [t[..WordLength(t)]] + Words(t[WordLength(t)..])
  {
    assert TrimLeft(t) == t;
  }

  lemma StripEnds(raw: string)
    ensures var line := Strip(raw);
            line == [] || (!IsSpace(line[0]) && !IsSpace(line[|line| - 1]))
  {
    var t := TrimLeft(raw);
    var line := TrimRight(t);
    if line != [] {
      assert line[0] == t[0];
    }
  }

  lemma BssWords(line: string)
    requires StartsWith(line, "BSS ") && !IsSpace(line[|line| - 1])
    ensures |Words(line)| >= 2 && Words(line)[0] == "BSS"
  {
    var head := line[..4];
    assert head == "BSS ";
    assert head[0] == line[0] && head[1] == line[1] && head[2] == line[2] && head[3] == line[3];
    WordLengthIs(line, 3);
    FirstWord(line);
    WordsNonEmpty(line[3..], |line| - 4);
    assert line[..3] == head[..3];
  }

  /** A stripped line that starts with "BSS " has a second word. */
  lemma SecondWord(raw: string)
    requires StartsWith(Strip(raw), "BSS ")
    ensures |Words(Strip(raw))| >= 2 && Words(Strip(raw))[0] == "BSS"
  {
    StripEnds(raw);
    BssWords(Strip(raw));
  }

  // ---------------------------------------------------------------------------
  // Case
  // ---------------------------------------------------------------------------

  function UpperChar(c: char): char
  {
    if 'a' <= c <= 'z' then (c as int - 32) as char else c
  }

  /** Python's `s.upper()` restricted to ASCII letters. */
  function Upper(s: string): (r: string)
    ensures |r| == |s|
  {
    seq(|s|, i requires 0 <= i < |s| => UpperChar(s[i]))
  }

  // ---------------------------------------------------------------------------
  // Numbers
  // ---------------------------------------------------------------------------

  predicate IsDigit(c: char)
  {
    '0' <= c <= '9'
  }

  predicate AllDigits(s: string)
  {
    forall i :: 0 <= i < |s| ==> IsDigit(s[i])
  }

  function DigitChar(d: nat): char
    requires d < 10
  {
    (48 + d) as char
  }

  /** The value of a string of decimal digits. */
  function DigitsValue(s: string): nat
    requires AllDigits(s)
  {
    if |s| == 0 then 0
    else DigitsValue(s[..|s| - 1]) * 10 + (s[|s| - 1] as int - 48)
  }

  /** Python's `str(n)` for a natural number. */
  function NatToString(n: nat): (r: string)
    ensures |r| > 0 && AllDigits(r)
  {
    (if n < 10 then "" else NatToString(n / 10)) + [DigitChar(n % 10)]
  }

  /** Python's `str(i)` (an f-string field) for an integer. */
  function IntToString(i: int): string
  {
    if i < 0 then "-" + NatToString(-i) else NatToString(i)
  }

  /** A non-negative decimal numeral as an HTTP client reads Content-Length. */
  function ParseNat(s: string): Option<nat>
  {
    if |s| > 0 && AllDigits(s) then Some(DigitsValue(s)) else None
  }

  lemma {:induction false} NatToStringValue(n: nat)
    ensures DigitsValue(NatToString(n)) == n
  {
    var s := NatToString(n);
    var p := if n < 10 then "" else NatToString(n / 10);
    var d := n % 10;
    assert s == p + [DigitChar(d)];
    assert s[..|s| - 1] == p;
    assert s[|s| - 1] as int - 48 == d;
    var q := n / 10;
    if n >= 10 {
      NatToStringValue(q);
    }
    assert DigitsValue(p) == q;
    calc {
      DigitsValue(s);
      DigitsValue(p) * 10 + d;
      q * 10 + d;
      n;
    }
  }

  /** Reading back a printed number gives the number. */
  lemma NatToStringParses(n: nat)
    ensures ParseNat(NatToString(n)) == Some(n)
  {
    NatToStringValue(n);
  }

  /** Digits with single underscores between them, as Python's `int()` accepts. */
  predicate UnderscoredDigits(s: string)
  {
    && |s| > 0 && IsDigit(s[0]) && IsDigit(s[|s| - 1])
    && (forall i :: 0 <= i < |s| ==> IsDigit(s[i]) || s[i] == '_')
    && (forall i :: 0 <= i < |s| - 1 ==> !(s[i] == '_' && s[i + 1] == '_'))
  }

  function DropUnderscores(s: string): (r: string)
    requires forall i :: 0 <= i < |s| ==> IsDigit(s[i]) || s[i] == '_'
    ensures AllDigits(r)
  {
    if |s| == 0 then ""
    else (if s[0] == '_' then "" else [s[0]]) + DropUnderscores(s[1..])
  }

  /** Python's `int(s)` in base 10 over ASCII digits: surrounding whitespace, a sign, underscores. */
  function PyInt(s: string): Option<int>
  {
    var t := Strip(s);
    var signed := |t| > 0 && (t[0] == '-' || t[0] == '+');
    var digits := if signed then t[1..] else t;
    if !UnderscoredDigits(digits) then None
    else
      var v: int := DigitsValue(DropUnderscores(digits));
      Some(if signed && t[0] == '-' then -v else v)
  }

  lemma {:induction false} DropUnderscoresOfDigits(s: string)
    requires AllDigits(s)
    ensures DropUnderscores(s) == s
  {
    if |s| > 0 {
      DropUnderscoresOfDigits(s[1..]);
      assert s == [s[0]] + s[1..];
    }
  }

  /** `int(str(n)) == n`. */
  lemma PyIntOfNatToString(n: nat)
    ensures PyInt(NatToString(n)) == Some(n)
  {
    var s := NatToString(n);
    assert !IsSpace(s[0]) && !IsSpace(s[|s| - 1]);
    StripNoSpaceEnds(s);
    assert !(s[0] == '-' || s[0] == '+');
    assert UnderscoredDigits(s);
    DropUnderscoresOfDigits(s);
    NatToStringValue(n);
  }

  // ---------------------------------------------------------------------------
  // UTF-8
  // ---------------------------------------------------------------------------

  /** The UTF-8 encoding of one Unicode scalar value (RFC 3629, section 3). */
  function EncodeChar(c: char): (r: seq<byte>)
    ensures 1 <= |r| <= 4
    ensures |r| == 1 <==> c as int < 0x80
  {
    var v := c as int;
    if v < 0x80 then [v as byte]
    else if v < 0x800 then [(0xC0 + v / 64) as byte, (0x80 + v % 64) as byte]
    else if v < 0x10000 then
      [(0xE0 + v / 4096) as byte, (0x80 + (v / 64) % 64) as byte, (0x80 + v % 64) as byte]
    else
      [(0xF0 + v / 262144) as byte, (0x80 + (v / 4096) % 64) as byte,
       (0x80 + (v / 64) % 64) as byte, (0x80 + v % 64) as byte]
  }

  /** Python's `s.encode('utf-8')`. */
  function Utf8(s: string): seq<byte>
  {
    if s == [] then [] else EncodeChar(s[0]) + Utf8(s[1..])
  }

  /** Encoding distributes over concatenation. */
  lemma {:induction false} Utf8Concat(a: string, b: string)
    ensures Utf8(a + b) == Utf8(a) + Utf8(b)
    decreases |a|
  {
    if a == [] {
      assert a + b == b;
    } else {
      assert (a + b)[1..] == a[1..] + b;
      Utf8Concat(a[1..], b);
    }
  }

  /** ASCII text encodes to one byte per character. */
  lemma {:induction false} Utf8Ascii(s: string)
    requires forall i :: 0 <= i < |s| ==> s[i] as int < 0x80
    ensures |Utf8(s)| == |s|
    decreases |s|
  {
    if s != [] {
      Utf8Ascii(s[1..]);
    }
  }
}

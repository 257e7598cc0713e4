/** The few Python string operations the parsers and builders rely on:
    `strip`, `split`, `join`, decimal `int()` parsing and `%d` formatting.
    Strings are `seq<char>`; characters compare by code point, as Python's
    byte strings do for ASCII text. */
module Text {
  import opened Wrappers

  /** The characters Python's argument-less `strip()` removes. */
  const Blanks: set<char> := {' ', '\t', '\n', '\r', '\U{000B}', '\U{000C}'}

  predicate IsSpace(c: char) {
    c in Blanks
  }

  predicate IsDigit(c: char) {
    '0' <= c <= '9'
  }

  predicate AllDigits(s: string) {
    forall i :: 0 <= i < |s| ==> IsDigit(s[i])
  }

  // ---------------------------------------------------------------------
  // strip

  /** `s.lstrip(chars)`. */
  function LStrip(s: string, chars: set<char>): (r: string)
    ensures |r| <= |s|
    decreases |s|
  {
    if |s| > 0 && s[0] in chars then LStrip(s[1..], chars) else s
  }

  /** What `lstrip` leaves is a suffix, what it removed are all `chars`,
      and what it leaves does not start with one. */
  lemma {:induction false} LStripShape(s: string, chars: set<char>)
    ensures var r := LStrip(s, chars);
      |r| <= |s| && r == s[|s| - |r|..]
      && (forall i :: 0 <= i < |s| - |r| ==> s[i] in chars)
      && (|r| > 0 ==> r[0] !in chars)
    decreases |s|
  {
    if |s| > 0 && s[0] in chars {
      LStripShape(s[1..], chars);
      var r := LStrip(s, chars);
      assert s[1..][|s| - 1 - |r|..] == s[|s| - |r|..];
      forall i | 0 <= i < |s| - |r|
        ensures s[i] in chars
      {
        if i > 0 {
          assert s[i] == s[1..][i - 1];
        }
      }
    }
  }

  /** `s.rstrip(chars)`. */
  function RStrip(s: string, chars: set<char>): (r: string)
    ensures |r| <= |s| && r == s[..|r|]
    ensures forall i :: |r| <= i < |s| ==> s[i] in chars
    ensures |r| > 0 ==> r[|r| - 1] !in chars
    decreases |s|
  {
    if |s| > 0 && s[|s| - 1] in chars then RStrip(s[..|s| - 1], chars) else s
  }

  /** `s.strip(chars)`: what is left of `s` once its longest prefix and its
      longest suffix made of `chars` are removed. */
  function StripBy(s: string, chars: set<char>): (r: string)
    ensures var a := |s| - |LStrip(s, chars)|;
      a + |r| <= |s| && r == s[a..a + |r|]
      && (forall i :: 0 <= i < a ==> s[i] in chars)
      && (forall i :: a + |r| <= i < |s| ==> s[i] in chars)
  {
    var l := LStrip(s, chars);
    LStripShape(s, chars);
    var r := RStrip(l, chars);
    InnerSlice(s, |s| - |l|, l, r, chars);
    r
  }

  /** A prefix `r` of the suffix `l` of `s` that starts at `a` is the
      slice of `s` from `a`; what `l` has after `r` is what `s` has. */
  lemma InnerSlice(s: string, a: nat, l: string, r: string, chars: set<char>)
    requires a <= |s| && l == s[a..] && |r| <= |l| && r == l[..|r|]
    requires forall i :: |r| <= i < |l| ==> l[i] in chars
    ensures a + |r| <= |s| && r == s[a..a + |r|]
    ensures forall i :: a + |r| <= i < |s| ==> s[i] in chars
  {
    forall i | a + |r| <= i < |s|
      ensures s[i] in chars
    {
      assert s[i] == l[i - a];
    }
  }

  /** The stripped text neither starts nor ends with one of `chars`, and it
      is empty exactly when every character of `s` is one of them. */
  lemma StripByEnds(s: string, chars: set<char>)
    ensures var r := StripBy(s, chars);
      (|r| > 0 ==> r[0] !in chars && r[|r| - 1] !in chars)
      && (|r| == 0 <==> forall i :: 0 <= i < |s| ==> s[i] in chars)
  {
    var l := LStrip(s, chars);
    LStripShape(s, chars);
    var r := RStrip(l, chars);
    assert StripBy(s, chars) == r;
    var a := |s| - |l|;
    if |r| > 0 {
      assert r[0] == l[0] && l[0] == s[a];
    }
  }

  /** `s.strip()`. */
  function Strip(s: string): string {
    StripBy(s, Blanks)
  }

  // ---------------------------------------------------------------------
  // split and join

  /** Cutting a sequence at two points and gluing the pieces back. */
  lemma Cut3<T>(s: seq<T>, a: nat, b: nat)
    requires a <= b <= |s|
    ensures s == s[..a] + s[a..b] + s[b..]
  {
    assert s[..a] + s[a..b] == s[..b];
    assert s[..b] + s[b..] == s;
  }

  predicate OccursAt(s: string, sep: string, i: nat) {
    i + |sep| <= |s| && s[i..i + |sep|] == sep
  }

  predicate Contains(s: string, sep: string) {
    exists i: nat | i <= |s| :: OccursAt(s, sep, i)
  }

  /** The first position at or after `from` where `sep` occurs in `s`. */
  function IndexOfFrom(s: string, sep: string, from: nat): (r: Option<nat>)
    ensures r.Some? ==> from <= r.value && OccursAt(s, sep, r.value)
    decreases |s| - from
  {
    if from + |sep| > |s| then None
    else if s[from..from + |sep|] == sep then Some(from)
    else IndexOfFrom(s, sep, from + 1)
  }

  /** `IndexOfFrom` finds the first occurrence: there is none before it, and
      none at all when it finds nothing. */
  lemma {:induction false} IndexOfFromFirst(s: string, sep: string, from: nat)
    ensures IndexOfFrom(s, sep, from).Some? ==>
      forall j: nat :: from <= j < IndexOfFrom(s, sep, from).value ==> !OccursAt(s, sep, j)
    ensures IndexOfFrom(s, sep, from).None? ==> forall j: nat :: from <= j ==> !OccursAt(s, sep, j)
    decreases |s| - from
  {
    if from + |sep| > |s| {
    } else if s[from..from + |sep|] == sep {
    } else {
      IndexOfFromFirst(s, sep, from + 1);
    }
  }

  function IndexOf(s: string, sep: string): Option<nat> {
    IndexOfFrom(s, sep, 0)
  }

  lemma OccursInPrefix(s: string, sep: string, i: nat, j: nat)
    requires i <= |s| && OccursAt(s[..i], sep, j)
    ensures OccursAt(s, sep, j)
  {
    assert s[..i][j..j + |sep|] == s[j..j + |sep|];
  }

  /** `s.split(sep)`: the pieces between the non-overlapping occurrences of
      `sep`, found left to right. */
  function Split(s: string, sep: string): (parts: seq<string>)
    requires |sep| > 0
    ensures |parts| >= 1
    decreases |s|
  {
    match IndexOf(s, sep)
    case None => [s]
    case Some(i) => [s[..i]] + Split(s[i + |sep|..], sep)
  }

  /** No piece of a split contains the separator. */
  lemma {:induction false} SplitPiecesFree(s: string, sep: string)
    requires |sep| > 0
    ensures forall k :: 0 <= k < |Split(s, sep)| ==> !Contains(Split(s, sep)[k], sep)
    decreases |s|
  {
    IndexOfFromFirst(s, sep, 0);
    match IndexOf(s, sep)
    case None =>
      assert Split(s, sep) == [s];
    case Some(i) =>
      var head := s[..i];
      forall j: nat | j <= |head| && OccursAt(head, sep, j)
        ensures false
      {
        OccursInPrefix(s, sep, i, j);
      }
      SplitPiecesFree(s[i + |sep|..], sep);
      assert Split(s, sep) == [head] + Split(s[i + |sep|..], sep);
  }

  /** `sep.join(parts)`. */
  function Join(sep: string, parts: seq<string>): string
    decreases |parts|
  {
    if |parts| == 0 then ""
    else if |parts| == 1 then parts[0]
    else parts[0] + sep + Join(sep, parts[1..])
  }

  function Last(parts: seq<string>): string
    requires |parts| > 0
  {
    parts[|parts| - 1]
  }

  /** Joining the pieces of a split with its separator gives back the text. */
  lemma {:induction false} JoinSplit(s: string, sep: string)
    requires |sep| > 0
    ensures Join(sep, Split(s, sep)) == s
    decreases |s|
  {
    match IndexOf(s, sep)
    case None =>
    case Some(i) =>
      var head, rest := s[..i], s[i + |sep|..];
      var tail := Split(rest, sep);
      assert Split(s, sep) == [head] + tail;
      assert ([head] + tail)[1..] == tail;
      JoinSplit(rest, sep);
      assert Join(sep, [head] + tail) == head + sep + rest;
      Cut3(s, i, i + |sep|);
  }

  /** Everything after the first piece of a split, rejoined, is the text after
      the first occurrence of the separator (empty when there is none). */
  lemma JoinSplitTail(s: string, sep: string)
    requires |sep| > 0
    ensures IndexOf(s, sep).None? ==> Join(sep, Split(s, sep)[1..]) == ""
    ensures IndexOf(s, sep).Some? ==>
      Join(sep, Split(s, sep)[1..]) == s[IndexOf(s, sep).value + |sep|..]
  {
    match IndexOf(s, sep)
    case None =>
    case Some(i) =>
      assert Split(s, sep)[1..] == Split(s[i + |sep|..], sep);
      JoinSplit(s[i + |sep|..], sep);
  }

  lemma OccursSingle(s: string, c: char, i: nat)
    ensures OccursAt(s, [c], i) <==> i < |s| && s[i] == c
  {
    if i < |s| {
      assert s[i..i + 1] == [s[i]];
    }
  }

  lemma NotContainsSingle(s: string, c: char)
    ensures !Contains(s, [c]) <==> c !in s
  {
    if c in s {
      var i :| 0 <= i < |s| && s[i] == c;
      OccursSingle(s, c, i);
    }
    if Contains(s, [c]) {
      var i: nat :| OccursAt(s, [c], i);
      OccursSingle(s, c, i);
    }
  }

  /** For a one-character separator, splitting inverts joining: pieces that do
      not contain the separator come back exactly. */
  lemma {:induction false} SplitJoin(parts: seq<string>, c: char)
    requires |parts| >= 1
    requires forall k :: 0 <= k < |parts| ==> c !in parts[k]
    ensures Split(Join([c], parts), [c]) == parts
    decreases |parts|
  {
    var s := Join([c], parts);
    var p := parts[0];
    if |parts| == 1 {
      forall j: nat | OccursAt(s, [c], j)
        ensures false
      {
        OccursSingle(s, c, j);
      }
      assert IndexOf(s, [c]).None?;
      assert Split(s, [c]) == [s];
    } else {
      var rest := Join([c], parts[1..]);
      assert s == p + [c] + rest;
      forall j: nat | j < |p|
        ensures !OccursAt(s, [c], j)
      {
        OccursSingle(s, c, j);
        assert s[j] == p[j];
      }
      OccursSingle(s, c, |p|);
      IndexOfFromFirst(s, [c], 0);
      assert IndexOf(s, [c]) == Some(|p|);
      assert s[..|p|] == p;
      assert s[|p| + 1..] == rest;
      assert Split(s, [c]) == [p] + Split(rest, [c]);
      SplitJoin(parts[1..], c);
    }
  }

  /** Text without the separator splits into itself alone. */
  lemma SplitFree(t: string, c: char)
    requires c !in t
    ensures Split(t, [c]) == [t]
  {
    NotContainsSingle(t, c);
    if IndexOf(t, [c]).Some? {
      assert OccursAt(t, [c], IndexOf(t, [c]).value);
    }
  }

  /** The last piece of a split on one character is whatever follows its
      last occurrence. */
  lemma {:induction false} LastAfterSingle(p: string, c: char, t: string)
    requires c !in t
    ensures Last(Split(p + [c] + t, [c])) == t
    decreases |p|
  {
    var s := p + [c] + t;
    IndexOfFromFirst(s, [c], 0);
    OccursSingle(s, c, |p|);
    match IndexOf(s, [c])
    case None =>
      assert false;
    case Some(i) =>
      OccursSingle(s, c, i);
      if i < |p| {
        var rest := s[i + 1..];
        assert rest == p[i + 1..] + [c] + t;
        var tail := Split(rest, [c]);
        assert Split(s, [c]) == [s[..i]] + tail;
        assert Last(Split(s, [c])) == Last(tail);
        LastAfterSingle(p[i + 1..], c, t);
      } else {
        assert s[i + 1..] == t;
        SplitFree(t, c);
      }
  }

  // ---------------------------------------------------------------------
  // decimal integers

  /** The match of the regular expression `^[0-9]*`. */
  function LeadingDigits(s: string): (r: string)
    ensures |r| <= |s| && r == s[..|r|] && AllDigits(r)
    ensures |r| < |s| ==> !IsDigit(s[|r|])
    decreases |s|
  {
    if |s| > 0 && IsDigit(s[0]) then [s[0]] + LeadingDigits(s[1..]) else ""
  }

  function DigitValue(c: char): nat
    requires IsDigit(c)
  {
    c as int - '0' as int
  }

  function DigitChar(d: nat): (c: char)
    requires d < 10
    ensures IsDigit(c) && DigitValue(c) == d
  {
    (d + '0' as int) as char
  }

  /** The number a non-empty run of decimal digits denotes. */
  function DigitsValue(s: string): nat
    requires AllDigits(s)
    decreases |s|
  {
    if |s| == 0 then 0 else DigitsValue(s[..|s| - 1]) * 10 + DigitValue(s[|s| - 1])
  }

  /** `"%d" % n` for a natural number. */
  function NatToString(n: nat): (r: string)
    ensures |r| > 0 && AllDigits(r)
    decreases n
  {
    if n < 10 then [DigitChar(n)] else NatToString(n / 10) + [DigitChar(n % 10)]
  }

  /** `"%d" % i`. */
  function IntToString(i: int): string {
    if i < 0 then "-" + NatToString(-i) else NatToString(i)
  }

  /** Python 2's `int(s)` in base 10: blanks around an optionally signed,
      non-empty run of digits, with blanks also allowed between the sign and
      the digits (the sign is read before `strtoul` skips leading blanks).
      `None` stands for the `ValueError`. */
  function ParseInt(s: string): Option<int> {
    ParseStripped(Strip(s))
  }

  /** `int` of a text without surrounding blanks. */
  function ParseStripped(t: string): Option<int> {
    if |t| > 0 && (t[0] == '+' || t[0] == '-') then
      match SkipToDigits(t[1..])
      case None => None
      case Some(v) => Some(if t[0] == '-' then -(v as int) else v as int)
    else if |t| > 0 && AllDigits(t) then Some(DigitsValue(t))
    else None
  }

  /** What follows a sign: blanks are skipped, and a non-empty run of
      digits must make up the rest. */
  function SkipToDigits(s: string): Option<nat>
    decreases |s|
  {
    if |s| > 0 && s[0] in Blanks then SkipToDigits(s[1..])
    else if |s| > 0 && AllDigits(s) then Some(DigitsValue(s))
    else None
  }

  lemma {:induction false} NatToStringValue(n: nat)
    ensures DigitsValue(NatToString(n)) == n
    decreases n
  {
    if n >= 10 {
      NatToStringValue(n / 10);
      var s := NatToString(n);
      assert s[..|s| - 1] == NatToString(n / 10);
    }
  }

  lemma LStripKeeps(s: string, chars: set<char>)
    requires |s| > 0 && s[0] !in chars
    ensures LStrip(s, chars) == s
  {
  }

  lemma RStripKeeps(s: string, chars: set<char>)
    requires |s| > 0 && s[|s| - 1] !in chars
    ensures RStrip(s, chars) == s
  {
  }

  /** A text whose first and last characters are not blanks is its own strip. */
  lemma StripKeeps(t: string)
    requires |t| > 0 && t[0] !in Blanks && t[|t| - 1] !in Blanks
    ensures Strip(t) == t
  {
    LStripKeeps(t, Blanks);
    RStripKeeps(t, Blanks);
  }

  lemma ParseDigits(d: string)
    requires |d| > 0 && AllDigits(d)
    ensures ParseInt(d) == Some(DigitsValue(d) as int)
  {
    StripKeeps(d);
    assert !IsDigit('+') && !IsDigit('-');
  }

  lemma ParseNegatedDigits(d: string)
    requires |d| > 0 && AllDigits(d)
    ensures ParseInt("-" + d) == Some(-(DigitsValue(d) as int))
  {
    var t := "-" + d;
    assert t[0] == '-' && t[|t| - 1] == d[|d| - 1];
    StripKeeps(t);
    NegatedStripped(d);
  }

  lemma NegatedStripped(d: string)
    requires |d| > 0 && AllDigits(d)
    ensures ParseStripped("-" + d) == Some(-(DigitsValue(d) as int))
  {
    var t := "-" + d;
    assert t[0] == '-' && t[1..] == d;
    SkipBlanks("", d);
    assert "" + d == d;
    SignedValue(t, '-', d);
  }

  /** A signed text whose digits follow the sign's blanks. */
  lemma SignedValue(t: string, sign: char, d: string)
    requires |t| > 0 && t[0] == sign && (sign == '+' || sign == '-')
    requires AllDigits(d) && SkipToDigits(t[1..]) == Some(DigitsValue(d))
    ensures ParseStripped(t) == Some(if sign == '-' then -(DigitsValue(d) as int) else DigitsValue(d) as int)
  {
  }

  lemma DigitNotBlank(c: char)
    requires IsDigit(c)
    ensures c !in Blanks
  {
  }

  /** Blanks between the sign and the digits are skipped: `int("+ 3") == 3`
      and `int("- 3") == -3`. */
  lemma ParseSignBlanks(sign: char, b: string, d: string)
    requires sign == '+' || sign == '-'
    requires forall k :: 0 <= k < |b| ==> b[k] in Blanks
    requires |d| > 0 && AllDigits(d)
    ensures ParseInt([sign] + b + d) == Some(if sign == '-' then -(DigitsValue(d) as int) else DigitsValue(d) as int)
  {
    var t := [sign] + b + d;
    SignedStrip(sign, b, d);
    AfterSign(sign, b, d);
    ParseIntOf(t, ParseStripped(t));
  }

  /** A signed run of digits is its own strip. */
  lemma SignedStrip(sign: char, b: string, d: string)
    requires sign == '+' || sign == '-'
    requires |d| > 0 && AllDigits(d)
    ensures Strip([sign] + b + d) == [sign] + b + d
  {
    var t := [sign] + b + d;
    assert t[0] == sign && t[|t| - 1] == d[|d| - 1];
    DigitNotBlank(d[|d| - 1]);
    StripKeeps(t);
  }

  /** After the sign, the blanks are skipped and the digits read. */
  lemma AfterSign(sign: char, b: string, d: string)
    requires sign == '+' || sign == '-'
    requires forall k :: 0 <= k < |b| ==> b[k] in Blanks
    requires |d| > 0 && AllDigits(d)
    ensures ParseStripped([sign] + b + d) == Some(if sign == '-' then -(DigitsValue(d) as int) else DigitsValue(d) as int)
  {
    var t := [sign] + b + d;
    assert t[0] == sign && t[1..] == b + d;
    SkipBlanks(b, d);
    SignedValue(t, sign, d);
  }

  lemma ParseIntOf(t: string, v: Option<int>)
    requires Strip(t) == t && ParseStripped(t) == v
    ensures ParseInt(t) == v
  {
  }

  /** Blanks in front of a run of digits are skipped. */
  lemma {:induction false} SkipBlanks(b: string, d: string)
    requires forall k :: 0 <= k < |b| ==> b[k] in Blanks
    requires |d| > 0 && AllDigits(d)
    ensures SkipToDigits(b + d) == Some(DigitsValue(d))
    decreases |b|
  {
    if |b| == 0 {
      assert b + d == d;
      DigitNotBlank(d[0]);
    } else {
      assert (b + d)[1..] == b[1..] + d;
      SkipBlanks(b[1..], d);
    }
  }

  /** `int("%d" % i) == i`: formatting an integer and parsing it back is the
      identity. */
  lemma IntToStringRoundTrip(i: int)
    ensures ParseInt(IntToString(i)) == Some(i)
  {
    if i < 0 {
      var d := NatToString(-i);
      NatToStringValue(-i);
      ParseNegatedDigits(d);
      assert IntToString(i) == "-" + d;
      assert -(DigitsValue(d) as int) == i;
    } else {
      var d := NatToString(i);
      NatToStringValue(i);
      ParseDigits(d);
      assert IntToString(i) == d;
      assert DigitsValue(d) as int == i;
    }
  }
}

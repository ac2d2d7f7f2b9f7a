/**
 * String rules of Python's `str` that the pipeline relies on: `strip()`,
 * `replace("\n", " ")`, `"\n".join(...)`, `split("\n")`, the `in` substring test
 * and `str(n)` for integers.
 */
module Text {
  import opened Wrappers

  /** Python's `str.isspace()` for one character (the characters `strip()` removes). */
  predicate IsSpace(c: char) {
    || ('\t' <= c <= '\r')
    || ('\U{1c}' <= c <= '\U{1f}')
    || c == ' ' || c == '\U{85}' || c == '\U{a0}' || c == '\U{1680}'
    || ('\U{2000}' <= c <= '\U{200a}')
    || c == '\U{2028}' || c == '\U{2029}' || c == '\U{202f}' || c == '\U{205f}' || c == '\U{3000}'
  }

  predicate AllSpace(s: string) {
    forall i :: 0 <= i < |s| ==> IsSpace(s[i])
  }

  /** Python's `s.lstrip()`: leading whitespace removed. */
  function LStrip(s: string): string {
    if |s| > 0 && IsSpace(s[0]) then LStrip(s[1..]) else s
  }

  /** Python's `s.rstrip()`: trailing whitespace removed. */
  function RStrip(s: string): string {
    if |s| > 0 && IsSpace(s[|s| - 1]) then RStrip(s[..|s| - 1]) else s
  }

  /** Python's `s.strip()`. */
  function Strip(s: string): string {
    RStrip(LStrip(s))
  }

  /** `lstrip()` keeps the longest suffix of `s` that does not start with whitespace. */
  lemma {:induction false} LStripSpec(s: string)
    ensures |LStrip(s)| <= |s| && LStrip(s) == s[|s| - |LStrip(s)|..]
    ensures AllSpace(s[..|s| - |LStrip(s)|])
    ensures LStrip(s) == [] || !IsSpace(LStrip(s)[0])
  {
    if |s| > 0 && IsSpace(s[0]) {
      LStripSpec(s[1..]);
      var r := LStrip(s[1..]);
      assert LStrip(s) == r;
      forall i | 0 <= i < |s| - |r| ensures IsSpace(s[i]) {
        if i > 0 {
          assert s[i] == s[1..][..|s| - 1 - |r|][i - 1];
        }
      }
    } else {
      assert LStrip(s) == s && s[..0] == [];
    }
  }

  /** `rstrip()` keeps the longest prefix of `s` that does not end with whitespace. */
  lemma {:induction false} RStripSpec(s: string)
    ensures |RStrip(s)| <= |s| && RStrip(s) == s[..|RStrip(s)|]
    ensures AllSpace(s[|RStrip(s)|..])
    ensures RStrip(s) == [] || !IsSpace(RStrip(s)[|RStrip(s)| - 1])
  {
    if |s| > 0 && IsSpace(s[|s| - 1]) {
      RStripSpec(s[..|s| - 1]);
      var r := RStrip(s[..|s| - 1]);
      assert RStrip(s) == r;
      forall i | |r| <= i < |s| ensures IsSpace(s[i]) {
        if i < |s| - 1 {
          assert s[i] == s[..|s| - 1][|r|..][i - |r|];
        }
      }
    } else {
      assert RStrip(s) == s && s[|s|..] == [];
    }
  }

  /**
   * `strip()` leaves no whitespace at either end, is empty exactly for an
   * all-whitespace string, and leaves a string alone that has none at its ends.
   */
  lemma StripSpec(s: string)
    ensures |Strip(s)| <= |s|
    ensures Strip(s) == [] <==> AllSpace(s)
    ensures Strip(s) != [] ==> !IsSpace(Strip(s)[0]) && !IsSpace(Strip(s)[|Strip(s)| - 1])
    ensures (s == [] || (!IsSpace(s[0]) && !IsSpace(s[|s| - 1]))) ==> Strip(s) == s
    ensures forall c :: c in Strip(s) ==> c in s
  {
    var l := LStrip(s);
    LStripSpec(s);
    RStripSpec(l);
    var r := RStrip(l);
    assert r == [] ==> l == [] && s[..|s|] == s;
    if r != [] {
      assert r[0] == l[0];
    }
    forall c | c in r ensures c in s {
      var k :| 0 <= k < |r| && r[k] == c;
      assert s[|s| - |l| + k] == c;
    }
  }

  /** Python's `s.replace("\n", " ")`. */
  function ReplaceNewlines(s: string): (r: string)
    ensures |r| == |s| && '\n' !in r
    ensures forall i :: 0 <= i < |s| && s[i] != '\n' ==> r[i] == s[i]
    ensures forall i :: 0 <= i < |s| && s[i] == '\n' ==> r[i] == ' '
  {
    seq(|s|, i requires 0 <= i < |s| => if s[i] == '\n' then ' ' else s[i])
  }

  /** The one-line form `save_to_txt` writes for a title or a URL. */
  function SingleLine(s: string): (r: string)
    ensures '\n' !in r
    ensures r == [] || (!IsSpace(r[0]) && !IsSpace(r[|r| - 1]))
  {
    StripSpec(ReplaceNewlines(s));
    Strip(ReplaceNewlines(s))
  }

  /** The one-line form is the newline-replaced text with whitespace cut from both ends only. */
  lemma SingleLineSpec(s: string)
    ensures var t, r := ReplaceNewlines(s), SingleLine(s);
      exists a :: 0 <= a <= |t| - |r| && t[a..a + |r|] == r && AllSpace(t[..a]) && AllSpace(t[a + |r|..])
  {
    var t, r := ReplaceNewlines(s), SingleLine(s);
    var l := LStrip(t);
    LStripSpec(t);
    RStripSpec(l);
    var a := |t| - |l|;
    assert l == t[a..] && r == l[..|r|];
    assert t[a..a + |r|] == r;
    assert t[a + |r|..] == l[|r|..];
  }

  /** A text already on one line, with no whitespace at either end, is written unchanged. */
  lemma SingleLineKeeps(s: string)
    requires '\n' !in s && (s == [] || (!IsSpace(s[0]) && !IsSpace(s[|s| - 1])))
    ensures SingleLine(s) == s
  {
    assert ReplaceNewlines(s) == s;
    StripSpec(s);
  }

  /** `strip()` keeps every occurrence of a text that neither starts nor ends with whitespace. */
  lemma StripKeepsOccurrence(s: string, sub: string, i: int)
    requires OccursAt(s, sub, i) && sub != [] && !IsSpace(sub[0]) && !IsSpace(sub[|sub| - 1])
    ensures OccursAt(Strip(s), sub, i - (|s| - |LStrip(s)|))
    ensures Contains(Strip(s), sub)
  {
    LStripKeepsOccurrence(s, sub, i);
    RStripKeepsOccurrence(LStrip(s), sub, i - (|s| - |LStrip(s)|));
  }

  lemma LStripKeepsOccurrence(s: string, sub: string, i: int)
    requires OccursAt(s, sub, i) && sub != [] && !IsSpace(sub[0])
    ensures OccursAt(LStrip(s), sub, i - (|s| - |LStrip(s)|))
  {
    var l := LStrip(s);
    LStripSpec(s);
    var a := |s| - |l|;
    assert s[i] == sub[0];
    NonSpaceNotLStripped(s, i);
    assert l[i - a..i - a + |sub|] == s[i..i + |sub|];
  }

  lemma RStripKeepsOccurrence(s: string, sub: string, i: int)
    requires OccursAt(s, sub, i) && sub != [] && !IsSpace(sub[|sub| - 1])
    ensures OccursAt(RStrip(s), sub, i)
  {
    var r := RStrip(s);
    RStripSpec(s);
    var e := i + |sub| - 1;
    assert s[e] == sub[|sub| - 1];
    NonSpaceNotRStripped(s, e);
    assert r[i..i + |sub|] == s[i..i + |sub|];
  }

  /** `lstrip()` removes no character at or after a non-space one. */
  lemma {:induction false} NonSpaceNotLStripped(s: string, i: int)
    requires 0 <= i < |s| && !IsSpace(s[i])
    ensures |s| - |LStrip(s)| <= i
    decreases |s|
  {
    if |s| > 0 && IsSpace(s[0]) {
      NonSpaceNotLStripped(s[1..], i - 1);
    }
  }

  /** `rstrip()` removes no character at or before a non-space one. */
  lemma {:induction false} NonSpaceNotRStripped(s: string, e: int)
    requires 0 <= e < |s| && !IsSpace(s[e])
    ensures e < |RStrip(s)|
    decreases |s|
  {
    if |s| > 0 && IsSpace(s[|s| - 1]) {
      NonSpaceNotRStripped(s[..|s| - 1], e);
    }
  }

  /** Python's `sep.join(parts)`. */
  function Join(parts: seq<string>, sep: string): (r: string)
    ensures parts == [] ==> r == []
    ensures |parts| == 1 ==> r == parts[0]
  {
    if |parts| == 0 then []
    else if |parts| == 1 then parts[0]
    else Join(parts[..|parts| - 1], sep) + sep + parts[|parts| - 1]
  }

  /** Joining two non-empty lists is joining each and putting one separator between them. */
  lemma {:induction false} JoinAppend(a: seq<string>, b: seq<string>, sep: string)
    requires a != [] && b != []
    ensures Join(a + b, sep) == Join(a, sep) + sep + Join(b, sep)
  {
    if |b| == 1 {
      assert (a + b)[..|a + b| - 1] == a;
    } else {
      var b' := b[..|b| - 1];
      assert (a + b)[..|a + b| - 1] == a + b';
      JoinAppend(a, b', sep);
    }
  }

  /** Cutting a concatenation at the length of its first part gives the parts back. */
  lemma SplitAt(p: string, q: string)
    ensures (p + q)[..|p|] == p && (p + q)[|p|..] == q
  {
  }

  /** Index of the first `c` in `s`, if any. */
  function IndexOf(s: string, c: char): (r: Option<nat>)
    ensures r.None? <==> c !in s
    ensures r.Some? ==> r.value < |s| && s[r.value] == c && c !in s[..r.value]
  {
    if |s| == 0 then None
    else if s[0] == c then Some(0)
    else match IndexOf(s[1..], c)
      case None => None
      case Some(i) => assert s[..i + 1] == [s[0]] + s[1..][..i]; Some(i + 1)
  }

  /** Python's `s.split("\n")`. */
  function SplitLines(s: string): (r: seq<string>)
    ensures r != []
    ensures forall k :: 0 <= k < |r| ==> '\n' !in r[k]
    decreases |s|
  {
    match IndexOf(s, '\n')
    case None => [s]
    case Some(i) => [s[..i]] + SplitLines(s[i + 1..])
  }

  lemma SplitLinesCons(a: string, b: string)
    requires '\n' !in a
    ensures SplitLines(a + "\n" + b) == [a] + SplitLines(b)
  {
    var s := a + "\n" + b;
    assert s[..|a|] == a && s[|a| + 1..] == b && s[|a|] == '\n';

  }

  /** `split("\n")` undoes `"\n".join(...)` when no part holds a newline. */
  lemma {:induction false} SplitJoin(parts: seq<string>)
    requires parts != []
    requires forall k :: 0 <= k < |parts| ==> '\n' !in parts[k]
    ensures SplitLines(Join(parts, "\n")) == parts
  {
    if |parts| == 1 {
      assert IndexOf(parts[0], '\n') == None;
    } else {
      JoinAppend([parts[0]], parts[1..], "\n");
      assert [parts[0]] + parts[1..] == parts;
      SplitLinesCons(parts[0], Join(parts[1..], "\n"));
      SplitJoin(parts[1..]);
    }
  }

  /** `"\n".join(...)` undoes `split("\n")`. */
  lemma {:induction false} JoinSplit(s: string)
    ensures Join(SplitLines(s), "\n") == s
    decreases |s|
  {
    match IndexOf(s, '\n')
    case None =>
    case Some(i) =>
      var rest := s[i + 1..];
      assert SplitLines(s) == [s[..i]] + SplitLines(rest);
      JoinSplit(rest);
      JoinAppend([s[..i]], SplitLines(rest), "\n");
      CutAround(s, i);
  }

  /** A text is the part before a newline, the newline and the part after it. */
  lemma CutAround(s: string, i: nat)
    requires i < |s| && s[i] == '\n'
    ensures s == s[..i] + "\n" + s[i + 1..]
  {
  }

  /**
   * A non-empty text with no newline at either end and no two newlines in a
   * row splits into non-empty lines.
   */
  lemma {:induction false} SplitLinesNonEmpty(s: string)
    requires s != [] && s[0] != '\n' && s[|s| - 1] != '\n'
    requires forall j :: !OccursAt(s, "\n\n", j)
    ensures forall k :: 0 <= k < |SplitLines(s)| ==> SplitLines(s)[k] != []
    decreases |s|
  {
    match IndexOf(s, '\n')
    case None =>
    case Some(i) =>
      var rest := s[i + 1..];
      assert i + 1 < |s|;
      assert !OccursAt(s, "\n\n", i);
      assert s[i..i + 2] == [s[i], s[i + 1]];
      forall j ensures !OccursAt(rest, "\n\n", j) {
        OccursInSuffix(s, "\n\n", i + 1, j);
      }
      SplitLinesNonEmpty(rest);
  }

  /** An occurrence in a suffix is an occurrence in the whole text, shifted by the cut. */
  lemma OccursInSuffix(s: string, sub: string, d: nat, j: int)
    requires d <= |s|
    ensures OccursAt(s[d..], sub, j) ==> OccursAt(s, sub, j + d)
  {
    if OccursAt(s[d..], sub, j) {
      assert s[j + d..j + d + |sub|] == s[d..][j..j + |sub|];
    }
  }

  /** `p` is a prefix of `s`. */
  predicate HasPrefix(s: string, p: string) {
    |p| <= |s| && s[..|p|] == p
  }

  /** `sub` occurs in `s` starting at index `i`. */
  predicate OccursAt(s: string, sub: string, i: int) {
    0 <= i && i + |sub| <= |s| && s[i..i + |sub|] == sub
  }

  /** Python's `sub in s`. */
  function Contains(s: string, sub: string): (r: bool)
    ensures r <==> exists i :: OccursAt(s, sub, i)
    decreases |s|
  {
    if |s| < |sub| then false
    else if HasPrefix(s, sub) then (assert OccursAt(s, sub, 0); true)
    else
      var rest := Contains(s[1..], sub);
      assert forall i :: OccursAt(s, sub, i) ==> i > 0 && OccursAt(s[1..], sub, i - 1) by {
        forall i | OccursAt(s, sub, i) ensures i > 0 && OccursAt(s[1..], sub, i - 1) {
          assert i != 0;
          assert s[1..][i - 1..i - 1 + |sub|] == s[i..i + |sub|];
        }
      }
      assert rest ==> exists i :: OccursAt(s, sub, i) by {
        if rest {
          var j :| OccursAt(s[1..], sub, j);
          assert s[1..][j..j + |sub|] == s[j + 1..j + 1 + |sub|];
          assert OccursAt(s, sub, j + 1);
        }
      }
      rest
  }

  predicate IsDigit(c: char) { '0' <= c <= '9' }

  function DigitChar(d: nat): (c: char)
    requires d < 10
    ensures IsDigit(c) && (c as int) - ('0' as int) == d
  {
    ('0' as int + d) as char
  }

  /** Python's `str(n)` for `n >= 0`: decimal digits, no leading zeros. */
  function NatToDecimal(n: nat): (r: string)
    ensures r != [] && forall i :: 0 <= i < |r| ==> IsDigit(r[i])
    ensures (r[0] == '0') <==> n == 0
  {
    if n < 10 then [DigitChar(n)] else NatToDecimal(n / 10) + [DigitChar(n % 10)]
  }

  /** Python's `str(n)` for any integer. */
  function IntToDecimal(n: int): (r: string)
    ensures r != [] && forall i :: 0 <= i < |r| ==> IsDigit(r[i]) || (i == 0 && r[i] == '-')
  {
    if n < 0 then "-" + NatToDecimal(-n) else NatToDecimal(n)
  }

  /** The value of a non-empty string of decimal digits. */
  function ParseNat(s: string): (r: Option<nat>)
    ensures r.Some? <==> s != [] && forall i :: 0 <= i < |s| ==> IsDigit(s[i])
  {
    if |s| == 0 || !IsDigit(s[|s| - 1]) then None
    else
      var d := (s[|s| - 1] as int) - ('0' as int);
      if |s| == 1 then Some(d)
      else match ParseNat(s[..|s| - 1])
        case None => None
        case Some(v) => Some(10 * v + d)
  }

  /** The value of an optionally signed decimal numeral. */
  function ParseInt(s: string): Option<int> {
    if |s| > 0 && s[0] == '-' then
      match ParseNat(s[1..])
      case None => None
      case Some(v) => Some(-(v as int))
    else
      match ParseNat(s)
      case None => None
      case Some(v) => Some(v)
  }

  lemma {:induction false} ParseNatToDecimal(n: nat)
    ensures ParseNat(NatToDecimal(n)) == Some(n)
  {
    if n >= 10 {
      var s := NatToDecimal(n);
      assert s[..|s| - 1] == NatToDecimal(n / 10);
      ParseNatToDecimal(n / 10);
    }
  }

  /** Reading back `str(n)` gives `n`. */
  lemma ParseIntToDecimal(n: int)
    ensures ParseInt(IntToDecimal(n)) == Some(n)
  {
    if n < 0 {
      assert IntToDecimal(n)[1..] == NatToDecimal(-n);
      ParseNatToDecimal(-n);
    } else {
      ParseNatToDecimal(n);
    }
  }
}

/**
  The Python `str` operations that both scraper scripts apply to page text:
  `strip`, `isspace`, substring search (`in`), `split(sep)[0]`, `sep.join`
  and `str()` of an integer.

  What counts as whitespace is a parameter, `isSpace`, in every function that
  needs it: Python decides it with the Unicode whitespace table. A property
  that depends on the table says so in its `requires`, and needs no more than
  what Python's table gives: that `' '` is whitespace.
*/
module Strings {

  datatype Option<+T> = None | Some(value: T)

  /** Every character of `s` is whitespace; true of the empty string. */
  predicate AllSpace(s: string, isSpace: char -> bool) {
    forall i :: 0 <= i < |s| ==> isSpace(s[i])
  }

  /** Python's `s.isspace()`: false on the empty string, otherwise true
      exactly when every character is whitespace. */
  function IsSpaceStr(s: string, isSpace: char -> bool): (b: bool)
    ensures s == [] ==> !b
    ensures s != [] ==> (b <==> forall i :: 0 <= i < |s| ==> isSpace(s[i]))
  {
    |s| > 0 && AllSpace(s, isSpace)
  }

  /** Neither the first nor the last character of `s` is whitespace. */
  predicate NoEdgeSpace(s: string, isSpace: char -> bool) {
    s == [] || (!isSpace(s[0]) && !isSpace(s[|s| - 1]))
  }

  /** The number of whitespace characters `s` starts with. */
  function LeadingSpace(s: string, isSpace: char -> bool): (n: nat)
    ensures n <= |s|
    ensures forall i :: 0 <= i < n ==> isSpace(s[i])
    ensures n < |s| ==> !isSpace(s[n])
  {
    if s == [] || !isSpace(s[0]) then 0
    else 1 + LeadingSpace(s[1..], isSpace)
  }

  /** The number of whitespace characters `s` ends with. */
  function TrailingSpace(s: string, isSpace: char -> bool): (n: nat)
    ensures n <= |s|
    ensures forall i :: |s| - n <= i < |s| ==> isSpace(s[i])
    ensures n < |s| ==> !isSpace(s[|s| - n - 1])
  {
    if s == [] || !isSpace(s[|s| - 1]) then 0
    else 1 + TrailingSpace(s[..|s| - 1], isSpace)
  }

  /**
    Python's `s.strip()`: `s` without its leading and trailing whitespace.
    What is left has no whitespace at either end, and nothing is left exactly
    when `s` is all whitespace.
  */
  function Strip(s: string, isSpace: char -> bool): (r: string)
    ensures NoEdgeSpace(r, isSpace)
    ensures r == [] <==> AllSpace(s, isSpace)
  {
    var a := LeadingSpace(s, isSpace);
    var t := s[a..];
    var b := TrailingSpace(t, isSpace);
    assert AllSpace(s, isSpace) ==> a == |s|;
    t[..|t| - b]
  }

  /**
    Stripping removes only whitespace, and only from the ends: the result is
    the piece of `s` that starts after the leading whitespace, and only
    whitespace follows it.
  */
  lemma StripShape(s: string, isSpace: char -> bool)
    ensures LeadingSpace(s, isSpace) + |Strip(s, isSpace)| <= |s|
    ensures s[LeadingSpace(s, isSpace)..LeadingSpace(s, isSpace) + |Strip(s, isSpace)|] == Strip(s, isSpace)
    ensures forall i :: 0 <= i < LeadingSpace(s, isSpace) ==> isSpace(s[i])
    ensures forall i :: LeadingSpace(s, isSpace) + |Strip(s, isSpace)| <= i < |s| ==> isSpace(s[i])
  {
    var a := LeadingSpace(s, isSpace);
    var t := s[a..];
    var b := TrailingSpace(t, isSpace);
    assert Strip(s, isSpace) == t[..|t| - b];
    forall i | a + |t| - b <= i < |s| ensures isSpace(s[i]) {
      assert s[i] == t[i - a];
    }
  }

  /** A string made of whitespace, a core with no whitespace at its edges, and
      whitespace again strips to that core: the core is unique. */
  lemma {:induction false} StripUnique(p: string, r: string, q: string, isSpace: char -> bool)
    requires AllSpace(p, isSpace) && AllSpace(q, isSpace) && NoEdgeSpace(r, isSpace)
    ensures Strip(p + r + q, isSpace) == r
  {
    var s := p + r + q;
    if r == [] {
      assert AllSpace(s, isSpace) by {
        forall i | 0 <= i < |s| ensures isSpace(s[i]) {
          if i < |p| { assert s[i] == p[i]; } else { assert s[i] == q[i - |p|]; }
        }
      }
    } else {
      StripShape(s, isSpace);
      var a := LeadingSpace(s, isSpace);
      assert s[|p|] == r[0];
      assert a == |p|;
      var t := Strip(s, isSpace);
      var e := a + |t|;
      assert s[|p| + |r| - 1] == r[|r| - 1];
      assert e == |p| + |r|;
      assert s[|p|..|p| + |r|] == r;
    }
  }

  /** A string with no whitespace at its edges is left as it is. */
  lemma StripNoEdge(r: string, isSpace: char -> bool)
    requires NoEdgeSpace(r, isSpace)
    ensures Strip(r, isSpace) == r
  {
    StripUnique([], r, [], isSpace);
    assert [] + r + [] == r;
  }

  /** Stripping twice is stripping once. */
  lemma StripIdempotent(s: string, isSpace: char -> bool)
    ensures Strip(Strip(s, isSpace), isSpace) == Strip(s, isSpace)
  {
    StripNoEdge(Strip(s, isSpace), isSpace);
  }

  /** `pat` occurs in `s` starting at index `i`. */
  predicate OccursAt(s: string, pat: string, i: nat) {
    i + |pat| <= |s| && s[i..i + |pat|] == pat
  }

  /** `pat` occurs somewhere in `s`, that is, `pat` is a substring of `s`. */
  ghost predicate Occurs(s: string, pat: string) {
    exists i: nat :: OccursAt(s, pat, i)
  }

  /** The first occurrence of `pat` in `s` at or after `from`. */
  function FindFrom(s: string, pat: string, from: nat): (r: Option<nat>)
    requires from <= |s|
    ensures r.Some? ==> from <= r.value && OccursAt(s, pat, r.value)
    ensures r.Some? ==> forall j: nat :: from <= j < r.value ==> !OccursAt(s, pat, j)
    ensures r.None? ==> forall j: nat :: from <= j ==> !OccursAt(s, pat, j)
    decreases |s| - from
  {
    if OccursAt(s, pat, from) then Some(from)
    else if from == |s| then None
    else FindFrom(s, pat, from + 1)
  }

  /** The index of the first occurrence of `pat` in `s`, as Python's `s.find`;
      `Find(s, pat).Some?` is Python's `pat in s`. */
  function Find(s: string, pat: string): (r: Option<nat>)
    ensures r.Some? <==> Occurs(s, pat)
    ensures r.Some? ==> OccursAt(s, pat, r.value)
    ensures r.Some? ==> forall j: nat :: j < r.value ==> !OccursAt(s, pat, j)
  {
    FindFrom(s, pat, 0)
  }

  /** A prefix is an occurrence at index 0. */
  lemma PrefixOccurs(s: string, pat: string)
    ensures pat <= s ==> OccursAt(s, pat, 0)
  {
    if pat <= s {
      assert s[0..|pat|] == pat;
    }
  }

  /** An occurrence inside a substring is an occurrence in the whole string. */
  lemma OccursInWhole(s: string, r: string, a: nat, pat: string)
    requires a + |r| <= |s| && s[a..a + |r|] == r
    requires Occurs(r, pat)
    ensures Occurs(s, pat)
  {
    var k: nat :| OccursAt(r, pat, k);
    forall i | 0 <= i < |pat| ensures s[a + k + i] == pat[i] {
      assert r[k + i] == pat[i];
    }
    assert s[a + k..a + k + |pat|] == pat;
    assert OccursAt(s, pat, a + k);
  }

  /**
    Python's `s.split(sep)[0]` for a non-empty `sep` (Python raises on an empty
    one): the prefix of `s` before the first occurrence of `sep`, or all of `s`
    when `sep` does not occur.
  */
  function SplitFirst(s: string, sep: string): (r: string)
    requires sep != []
    ensures r <= s
    ensures forall j: nat :: j < |r| ==> !OccursAt(s, sep, j)
    ensures !Occurs(r, sep)
    ensures Occurs(s, sep) ==> OccursAt(s, sep, |r|)
    ensures !Occurs(s, sep) ==> r == s
  {
    match Find(s, sep)
    case None => s
    case Some(i) =>
      var r := s[..i];
      assert !Occurs(r, sep) by {
        if Occurs(r, sep) {
          var k: nat :| OccursAt(r, sep, k);
          assert s[k..k + |sep|] == r[k..k + |sep|];
          assert OccursAt(s, sep, k);
        }
      }
      r
  }

  /** Python's `sep.join(parts)`; `JoinLayout` states where each part lies. */
  function Join(sep: string, parts: seq<string>): string {
    if |parts| == 0 then []
    else if |parts| == 1 then parts[0]
    else
      parts[0] + sep + Join(sep, parts[1..])
  }

  /** A join of three parts, written out. */
  lemma Join3(sep: string, a: string, b: string, c: string)
    ensures Join(sep, [a, b, c]) == a + sep + b + sep + c
  {
    assert [a, b, c][1..] == [b, c];
    assert [b, c][1..] == [c];
    assert Join(sep, [b, c]) == b + sep + c;
    assert a + sep + (b + sep + c) == a + sep + b + sep + c;
  }

  /** Whitespace on both sides of a concatenation, and only then. */
  lemma AllSpaceConcat(a: string, b: string, isSpace: char -> bool)
    ensures AllSpace(a + b, isSpace) <==> AllSpace(a, isSpace) && AllSpace(b, isSpace)
  {
    if AllSpace(a + b, isSpace) {
      forall i | 0 <= i < |a| ensures isSpace(a[i]) {
        assert (a + b)[i] == a[i];
      }
      forall i | 0 <= i < |b| ensures isSpace(b[i]) {
        assert (a + b)[|a| + i] == b[i];
      }
    }
  }

  /**
    A space-joined list of stripped parts is all whitespace exactly when every
    part is empty: a non-empty stripped part has a non-whitespace character.
  */
  lemma {:induction false} JoinBlank(parts: seq<string>, isSpace: char -> bool)
    requires isSpace(' ')
    requires forall i :: 0 <= i < |parts| ==> NoEdgeSpace(parts[i], isSpace)
    ensures AllSpace(Join(" ", parts), isSpace) <==> forall i :: 0 <= i < |parts| ==> parts[i] == []
  {
    if |parts| == 1 {
      assert parts[0] != [] ==> !isSpace(parts[0][0]);
    } else if |parts| > 1 {
      var tail := parts[1..];
      JoinBlank(tail, isSpace);
      assert forall i :: 1 <= i < |parts| ==> tail[i - 1] == parts[i];
      assert Join(" ", parts) == (parts[0] + " ") + Join(" ", tail);
      AllSpaceConcat(parts[0] + " ", Join(" ", tail), isSpace);
      AllSpaceConcat(parts[0], " ", isSpace);
      assert parts[0] != [] ==> !isSpace(parts[0][0]);
    }
  }

  /** Where `parts[k]` starts in `Join(sep, parts)`. */
  function Offset(sep: string, parts: seq<string>, k: nat): nat
    requires k <= |parts|
  {
    if k == 0 then 0 else |parts[0]| + |sep| + Offset(sep, parts[1..], k - 1)
  }

  /** A slice of the right operand of a concatenation, seen through the whole. */
  lemma SliceOfRight(x: string, y: string, i: nat, j: nat)
    requires i <= j <= |y|
    ensures (x + y)[|x| + i..|x| + j] == y[i..j]
  {
    assert forall t :: |x| + i <= t < |x| + j ==> (x + y)[t] == y[t - |x|];
  }

  /**
    Part `k` of a join sits at `Offset(sep, parts, k)`, unchanged; exactly one
    `sep` follows it unless it is the last part, which ends the string.
  */
  predicate PartAt(sep: string, parts: seq<string>, k: nat)
    requires k < |parts|
  {
    var joined := Join(sep, parts);
    var start := Offset(sep, parts, k);
    var end := start + |parts[k]|;
    && end <= |joined|
    && joined[start..end] == parts[k]
    && (k + 1 < |parts| ==>
          && Offset(sep, parts, k + 1) == end + |sep| <= |joined|
          && joined[end..end + |sep|] == sep)
    && (k + 1 == |parts| ==> end == |joined|)
  }

  /** The first part of a join starts it. */
  lemma JoinLayoutFirst(sep: string, parts: seq<string>)
    requires |parts| >= 1
    ensures PartAt(sep, parts, 0)
  {
    if |parts| >= 2 {
      var head := parts[0] + sep;
      assert Join(sep, parts) == head + Join(sep, parts[1..]);
      assert head[..|parts[0]|] == parts[0];
      assert head[|parts[0]|..] == sep;
    }
  }

  /** A later part's place in the join, from its place in the join of the tail. */
  lemma JoinLayoutStep(sep: string, parts: seq<string>, k: nat)
    requires 0 < k < |parts|
    requires PartAt(sep, parts[1..], k - 1)
    ensures PartAt(sep, parts, k)
  {
    var tail := parts[1..];
    var head := parts[0] + sep;
    var rest := Join(sep, tail);
    assert Join(sep, parts) == head + rest;
    var o := Offset(sep, tail, k - 1);
    assert tail[k - 1] == parts[k];
    assert Offset(sep, parts, k) == |head| + o;
    SliceOfRight(head, rest, o, o + |parts[k]|);
    if k + 1 < |parts| {
      var o' := Offset(sep, tail, k);
      assert Offset(sep, parts, k + 1) == |head| + o';
      SliceOfRight(head, rest, o + |parts[k]|, o');
    }
  }

  /** The layout of a join: every part appears unchanged and in order, as `PartAt` says. */
  lemma {:induction false} JoinLayout(sep: string, parts: seq<string>, k: nat)
    requires k < |parts|
    ensures PartAt(sep, parts, k)
  {
    if k == 0 {
      JoinLayoutFirst(sep, parts);
    } else {
      JoinLayout(sep, parts[1..], k - 1);
      JoinLayoutStep(sep, parts, k);
    }
  }

  /** The layout of a join with a one-space separator, index by index. */
  lemma JoinWithSpace(parts: seq<string>, k: nat)
    requires k < |parts|
    ensures var joined := Join(" ", parts);
      var start := Offset(" ", parts, k);
      var end := start + |parts[k]|;
      && end <= |joined|
      && joined[start..end] == parts[k]
      && (k + 1 < |parts| ==> Offset(" ", parts, k + 1) == end + 1 && end < |joined| && joined[end] == ' ')
      && (k + 1 == |parts| ==> end == |joined|)
  {
    JoinLayout(" ", parts, k);
    if k + 1 < |parts| {
      var end := Offset(" ", parts, k) + |parts[k]|;
      assert Join(" ", parts)[end..end + 1] == " ";
    }
  }

  predicate IsDigit(c: char) {
    '0' <= c <= '9'
  }

  function DigitChar(d: nat): (c: char)
    requires d < 10
    ensures IsDigit(c)
  {
    ('0' as int + d) as char
  }

  function DigitValue(c: char): nat
    requires IsDigit(c)
  {
    c as int - '0' as int
  }

  /** The decimal digits of `n`, most significant first, no leading zero:
      the text starts with `0` only when it is the single digit of zero. */
  function NatToDecimal(n: nat): (s: string)
    ensures s != []
    ensures forall i :: 0 <= i < |s| ==> IsDigit(s[i])
    ensures s[0] == '0' <==> n == 0
    ensures |s| > 1 ==> s[0] != '0'
  {
    if n < 10 then [DigitChar(n)]
    else NatToDecimal(n / 10) + [DigitChar(n % 10)]
  }

  /** Python's `str(n)` of an integer: a minus sign, then the digits of `|n|`. */
  function IntToDecimal(n: int): (s: string)
    ensures s != []
    ensures forall i :: 0 <= i < |s| ==> IsDigit(s[i]) || (i == 0 && s[i] == '-')
    ensures s[0] == '-' <==> n < 0
    ensures var digits := if n < 0 then s[1..] else s;
      && digits != []
      && (digits[0] == '0' <==> n == 0)
      && (|digits| > 1 ==> digits[0] != '0')
  {
    if n < 0 then "-" + NatToDecimal(-n) else NatToDecimal(n)
  }

  predicate AllDigits(s: string) {
    forall i :: 0 <= i < |s| ==> IsDigit(s[i])
  }

  /** The value of a non-empty string of decimal digits. */
  function ParseNat(s: string): nat
    requires s != [] && AllDigits(s)
  {
    if |s| == 1 then DigitValue(s[0])
    else 10 * ParseNat(s[..|s| - 1]) + DigitValue(s[|s| - 1])
  }

  /** Python's `int(s)` restricted to an optional minus sign and digits. */
  function ParseInt(s: string): Option<int> {
    if |s| > 1 && s[0] == '-' && AllDigits(s[1..]) then Some(0 - ParseNat(s[1..]))
    else if s != [] && AllDigits(s) then Some(ParseNat(s))
    else None
  }

  lemma {:induction false} ParseNatDecimal(n: nat)
    ensures ParseNat(NatToDecimal(n)) == n
  {
    if n >= 10 {
      ParseNatDecimal(n / 10);
      var s := NatToDecimal(n);
      assert s[..|s| - 1] == NatToDecimal(n / 10);
    }
  }

  /** `IntToDecimal` loses nothing: parsing its text gives the number back. */
  lemma ParseIntDecimal(n: int)
    ensures ParseInt(IntToDecimal(n)) == Some(n)
  {
    var s := IntToDecimal(n);
    if n < 0 {
      ParseNatDecimal(-n);
      assert s[1..] == NatToDecimal(-n);
    } else {
      ParseNatDecimal(n);
    }
  }

  /** Distinct numbers print differently. */
  lemma IntToDecimalInjective(m: int, n: int)
    requires IntToDecimal(m) == IntToDecimal(n)
    ensures m == n
  {
    ParseIntDecimal(m);
    ParseIntDecimal(n);
  }
}

/** The .NET string primitives the solver relies on, with ordinal (character by
    character) comparison: String.IndexOf, String.Replace, String.Split,
    String.Trim, Int32.ToString and Int32.Parse on digit strings. */
module Strings {

  datatype Option<T> = None | Some(value: T)

  /** `pat` occurs in `s` starting at index `i`, compared character by
      character (the ordinal comparison). */
  predicate MatchAt(s: string, pat: string, i: nat) {
    i + |pat| <= |s| && MatchFrom(s, pat, i, 0)
  }

  /** The characters of `pat` from `k` on sit in `s` from `i + k` on. */
  predicate MatchFrom(s: string, pat: string, i: nat, k: nat)
    requires i + |pat| <= |s| && k <= |pat|
    decreases |pat| - k
  {
    k == |pat| || (s[i + k] == pat[k] && MatchFrom(s, pat, i, k + 1))
  }

  lemma {:induction false} MatchFromAll(s: string, pat: string, i: nat, k: nat)
    requires i + |pat| <= |s| && k <= |pat|
    ensures MatchFrom(s, pat, i, k) <==> forall j :: k <= j < |pat| ==> s[i + j] == pat[j]
    decreases |pat| - k
  {
    if k < |pat| {
      MatchFromAll(s, pat, i, k + 1);
    }
  }

  /** An occurrence is a slice of `s` equal to `pat`. */
  lemma {:induction false} MatchAtSlice(s: string, pat: string, i: nat)
    ensures MatchAt(s, pat, i) <==> i + |pat| <= |s| && s[i..i + |pat|] == pat
  {
    if i + |pat| <= |s| {
      MatchFromAll(s, pat, i, 0);
      if s[i..i + |pat|] == pat {
        forall j | 0 <= j < |pat| ensures s[i + j] == pat[j] {
          assert s[i..i + |pat|][j] == s[i + j];
        }
      }
    }
  }

  lemma {:induction false} MatchAtIndex(s: string, pat: string, i: nat, k: nat)
    requires MatchAt(s, pat, i) && k < |pat|
    ensures s[i + k] == pat[k]
  {
    MatchFromAll(s, pat, i, 0);
  }

  lemma {:induction false} MatchAtChar(s: string, c: char, i: nat)
    ensures MatchAt(s, [c], i) <==> i < |s| && s[i] == c
  {
    if i < |s| {
      MatchFromAll(s, [c], i, 0);
    }
  }

  /** String.IndexOf(pat, from): the first occurrence of `pat` at or after
      `from`, or None (the source's -1). .NET demands from <= |s|. */
  function IndexOf(s: string, pat: string, from: nat): (r: Option<nat>)
    requires from <= |s|
    ensures r.Some? ==> from <= r.value && r.value + |pat| <= |s|
    decreases |s| - from
  {
    if MatchAt(s, pat, from) then Some(from)
    else if from == |s| then None
    else IndexOf(s, pat, from + 1)
  }

  /** What IndexOf finds is an occurrence, and the first one: there is none
      before it, and none at all when it reports none. */
  lemma {:induction false} IndexOfFirst(s: string, pat: string, from: nat)
    requires from <= |s|
    ensures var r := IndexOf(s, pat, from);
      (r.Some? ==> MatchAt(s, pat, r.value)) &&
      forall i: nat :: from <= i && (r.None? || i < r.value) ==> !MatchAt(s, pat, i)
    decreases |s| - from
  {
    if !MatchAt(s, pat, from) && from < |s| {
      IndexOfFirst(s, pat, from + 1);
    }
  }

  /** Every occurrence of `c` at or after `from` is absent. */
  predicate NoCharFrom(s: string, c: char, from: nat) {
    forall i :: from <= i < |s| ==> s[i] != c
  }

  lemma IndexOfChar(s: string, c: char, from: nat)
    requires from <= |s|
    ensures IndexOf(s, [c], from).None? <==> NoCharFrom(s, c, from)
    ensures IndexOf(s, [c], from).Some? ==>
      var k := IndexOf(s, [c], from).value;
      k < |s| && s[k] == c && forall i :: from <= i < k ==> s[i] != c
  {
    var r := IndexOf(s, [c], from);
    IndexOfFirst(s, [c], from);
    forall i: nat | from <= i < |s|
      ensures (r.None? || i < r.value) ==> s[i] != c
    {
      MatchAtChar(s, c, i);
    }
    if r.Some? {
      MatchAtChar(s, c, r.value);
    }
  }

  /** The search for a character stops at the first one at or after `from`. */
  lemma {:induction false} IndexOfCharAt(s: string, c: char, from: nat, k: nat)
    requires from <= k < |s| && s[k] == c && forall i :: from <= i < k ==> s[i] != c
    ensures IndexOf(s, [c], from) == Some(k)
  {
    IndexOfChar(s, c, from);
  }

  /** An occurrence of `x + y` is an occurrence of `x` followed by one of `y`. */
  lemma {:induction false} MatchAtConcat(s: string, x: string, y: string, c: nat)
    requires MatchAt(s, x + y, c)
    ensures MatchAt(s, x, c) && MatchAt(s, y, c + |x|)
  {
    MatchAtSlice(s, x + y, c);
    MatchAtSlice(s, x, c);
    MatchAtSlice(s, y, c + |x|);
    assert s[c..c + |x|] == s[c..c + |x + y|][..|x|];
    assert s[c + |x|..c + |x| + |y|] == s[c..c + |x + y|][|x|..];
  }

  /** String.Replace(pat, rep): every non-overlapping occurrence of `pat`,
      scanning left to right, is replaced by `rep` (.NET refuses an empty `pat`). */
  function Replace(s: string, pat: string, rep: string): string
    requires |pat| > 0
    decreases |s|
  {
    if |s| < |pat| then s
    else if s[..|pat|] == pat then rep + Replace(s[|pat|..], pat, rep)
    else [s[0]] + Replace(s[1..], pat, rep)
  }

  /** A text that misses some character of `pat` is left as it is. */
  lemma {:induction false} ReplaceAbsent(s: string, pat: string, rep: string, c: char)
    requires |pat| > 0 && c in pat && c !in s
    ensures Replace(s, pat, rep) == s
    decreases |s|
  {
    if |s| >= |pat| {
      assert s[..|pat|] != pat by {
        var k :| 0 <= k < |pat| && pat[k] == c;
        assert s[..|pat|][k] == s[k];
      }
      ReplaceAbsent(s[1..], pat, rep, c);
      assert [s[0]] + s[1..] == s;
    }
  }

  /** A replacement no longer than the pattern never lengthens the text. */
  lemma {:induction false} ReplaceShorter(s: string, pat: string, rep: string)
    requires |pat| > 0 && |rep| <= |pat|
    ensures |Replace(s, pat, rep)| <= |s|
    decreases |s|
  {
    if |s| >= |pat| {
      if s[..|pat|] == pat {
        ReplaceShorter(s[|pat|..], pat, rep);
      } else {
        ReplaceShorter(s[1..], pat, rep);
      }
    }
  }

  /** Every character of the result comes from the text or from the replacement. */
  lemma {:induction false} ReplaceChars(s: string, pat: string, rep: string)
    requires |pat| > 0
    ensures forall c :: c in Replace(s, pat, rep) ==> c in s || c in rep
    decreases |s|
  {
    if |s| >= |pat| {
      if s[..|pat|] == pat {
        var tail := s[|pat|..];
        ReplaceChars(tail, pat, rep);
        forall c | c in Replace(s, pat, rep) && c !in rep
          ensures c in s
        {
          assert c in Replace(tail, pat, rep);
          var k :| 0 <= k < |tail| && tail[k] == c;
          assert s[|pat| + k] == c;
        }
      } else {
        var tail := s[1..];
        ReplaceChars(tail, pat, rep);
        forall c | c in Replace(s, pat, rep) && c !in rep
          ensures c in s
        {
          if c != s[0] {
            assert c in Replace(tail, pat, rep);
            var k :| 0 <= k < |tail| && tail[k] == c;
            assert s[1 + k] == c;
          }
        }
      }
    }
  }

  /** No occurrence of `pat` in `a + b` begins in `a` and ends in `b`. */
  predicate NoStraddle(a: string, b: string, pat: string) {
    forall i: nat :: i < |a| < i + |pat| ==> !MatchAt(a + b, pat, i)
  }

  /** The last character of `a` cannot sit strictly inside an occurrence of `pat`. */
  lemma NoStraddleByLast(a: string, b: string, pat: string)
    requires |a| > 0 && |pat| > 0 && a[|a| - 1] !in pat[..|pat| - 1]
    ensures NoStraddle(a, b, pat)
  {
    forall i: nat | i < |a| < i + |pat|
      ensures !MatchAt(a + b, pat, i)
    {
      var k := |a| - 1 - i;
      MatchAtSlice(a + b, pat, i);
      if i + |pat| <= |a + b| {
        assert (a + b)[i..i + |pat|][k] == a[|a| - 1];
      }
      assert pat[..|pat| - 1][k] == pat[k];
    }
  }

  lemma NoStraddleSuffix(a: string, b: string, pat: string, k: nat)
    requires k <= |a| && NoStraddle(a, b, pat)
    ensures NoStraddle(a[k..], b, pat)
  {
    var a' := a[k..];
    assert a + b == a[..k] + (a' + b);
    forall i: nat | i < |a'| < i + |pat|
      ensures !MatchAt(a' + b, pat, i)
    {
      MatchAtSlice(a' + b, pat, i);
      MatchAtSlice(a + b, pat, i + k);
    }
  }

  /** Replacing distributes over a concatenation that no occurrence straddles. */
  lemma {:induction false} ReplaceConcat(a: string, b: string, pat: string, rep: string)
    requires |pat| > 0 && NoStraddle(a, b, pat)
    ensures Replace(a + b, pat, rep) == Replace(a, pat, rep) + Replace(b, pat, rep)
    decreases |a|
  {
    if a == [] {
      assert a + b == b;
    } else if |a + b| < |pat| {
      assert Replace(b, pat, rep) == b;
    } else if (a + b)[..|pat|] == pat {
      MatchPrefix(a, b, pat);
      NoStraddleSuffix(a, b, pat, |pat|);
      ReplaceConcat(a[|pat|..], b, pat, rep);
      ReplaceMatchJoin(a, b, pat, rep);
    } else {
      NoStraddleSuffix(a, b, pat, 1);
      ReplaceConcat(a[1..], b, pat, rep);
      ReplaceSkipJoin(a, b, pat, rep);
    }
  }

  /** An occurrence at the start of `a + b` that does not straddle lies in `a`. */
  lemma {:induction false} MatchPrefix(a: string, b: string, pat: string)
    requires |pat| > 0 && |a| > 0 && NoStraddle(a, b, pat)
    requires |a + b| >= |pat| && (a + b)[..|pat|] == pat
    ensures |pat| <= |a| && a[..|pat|] == pat
  {
    if |a| < |pat| {
      MatchAtSlice(a + b, pat, 0);
      assert false;
    }
    assert a[..|pat|] == (a + b)[..|pat|];
  }

  /** An occurrence at the head is replaced and the scan goes on after it. */
  lemma {:induction false} ReplaceAtHead(pat: string, b: string, rep: string)
    requires |pat| > 0
    ensures Replace(pat + b, pat, rep) == rep + Replace(b, pat, rep)
  {
    var s := pat + b;
    assert s[..|pat|] == pat && s[|pat|..] == b;
  }

  /** The replacement step for an occurrence at the start of `a`. */
  lemma {:induction false} ReplaceMatchJoin(a: string, b: string, pat: string, rep: string)
    requires |pat| > 0 && |pat| <= |a| && a[..|pat|] == pat
    requires Replace(a[|pat|..] + b, pat, rep) == Replace(a[|pat|..], pat, rep) + Replace(b, pat, rep)
    ensures Replace(a + b, pat, rep) == Replace(a, pat, rep) + Replace(b, pat, rep)
  {
    var s := a + b;
    assert s[..|pat|] == pat;
    assert s[|pat|..] == a[|pat|..] + b;
    assert Replace(s, pat, rep) == rep + Replace(a[|pat|..] + b, pat, rep);
    assert Replace(a, pat, rep) == rep + Replace(a[|pat|..], pat, rep);
  }

  /** The copying step for a first character that starts no occurrence. */
  lemma {:induction false} ReplaceSkipJoin(a: string, b: string, pat: string, rep: string)
    requires |pat| > 0 && |a| > 0 && |a + b| >= |pat| && (a + b)[..|pat|] != pat
    requires Replace(a[1..] + b, pat, rep) == Replace(a[1..], pat, rep) + Replace(b, pat, rep)
    ensures Replace(a + b, pat, rep) == Replace(a, pat, rep) + Replace(b, pat, rep)
  {
    var s := a + b;
    ConcatParts(a, b, |pat|);
    ReplaceSkip(s, s, pat, rep);
    ReplaceSkip(a, s, pat, rep);
    ConcatAssoc([a[0]], Replace(a[1..], pat, rep), Replace(b, pat, rep));
  }

  lemma ConcatParts(a: string, b: string, n: nat)
    requires |a| > 0
    ensures (a + b)[0] == a[0] && (a + b)[1..] == a[1..] + b
    ensures n <= |a| ==> a[..n] == (a + b)[..n]
  {
    if n <= |a| {
      assert a[..n] == (a + b)[..n];
    }
  }

  lemma AbsentConcat(x: string, y: string, c: char)
    requires c !in x && c !in y
    ensures c !in x + y
  {
  }

  lemma ConcatAssoc(x: string, y: string, z: string)
    ensures x + (y + z) == (x + y) + z
  {
  }

  /** Replace copies the first character of `a` when `a` starts like `s` and
      `s` does not start with `pat`. */
  lemma {:induction false} ReplaceSkip(a: string, s: string, pat: string, rep: string)
    requires |pat| > 0 && |a| > 0 && |s| >= |pat| && s[..|pat|] != pat
    requires |a| >= |pat| ==> a[..|pat|] == s[..|pat|]
    ensures Replace(a, pat, rep) == [a[0]] + Replace(a[1..], pat, rep)
  {
    if |a| < |pat| {
      assert Replace(a[1..], pat, rep) == a[1..];
      assert [a[0]] + a[1..] == a;
    }
  }

  /** String.Split(sep) with StringSplitOptions.None: the pieces between
      successive non-overlapping occurrences of `sep`, left to right. */
  function Split(s: string, sep: string): (parts: seq<string>)
    requires |sep| > 0
    ensures |parts| >= 1
    decreases |s|
  {
    match IndexOf(s, sep, 0)
    case None => [s]
    case Some(i) => [s[..i]] + Split(s[i + |sep|..], sep)
  }

  /** String.Join(sep, parts). */
  function Join(parts: seq<string>, sep: string): string {
    if |parts| <= 1 then (if parts == [] then "" else parts[0])
    else parts[0] + sep + Join(parts[1..], sep)
  }

  /** The text before the first separator holds no separator. */
  lemma BeforeFirst(s: string, sep: string, i: nat)
    requires |sep| > 0 && IndexOf(s, sep, 0) == Some(i)
    ensures IndexOf(s[..i], sep, 0).None?
  {
    IndexOfFirst(s, sep, 0);
    IndexOfFirst(s[..i], sep, 0);
    if IndexOf(s[..i], sep, 0).Some? {
      var j := IndexOf(s[..i], sep, 0).value;
      MatchAtSlice(s[..i], sep, j);
      MatchAtSlice(s, sep, j);
      assert false;
    }
  }

  /** Split is undone by joining with the same separator. */
  lemma {:induction false} SplitJoin(s: string, sep: string)
    requires |sep| > 0
    ensures Join(Split(s, sep), sep) == s
    decreases |s|
  {
    IndexOfFirst(s, sep, 0);
    match IndexOf(s, sep, 0)
    case None =>
    case Some(i) =>
      var rest := s[i + |sep|..];
      SplitJoin(rest, sep);
      var parts := Split(s, sep);
      assert parts == [s[..i]] + Split(rest, sep);
      assert parts[1..] == Split(rest, sep);
      assert s == s[..i] + sep + rest by {
        MatchAtSlice(s, sep, i);
        assert s[i..i + |sep|] == sep;
      }
  }

  /** No piece of a split contains the separator. */
  lemma {:induction false} SplitPieces(s: string, sep: string)
    requires |sep| > 0
    ensures forall k :: 0 <= k < |Split(s, sep)| ==> IndexOf(Split(s, sep)[k], sep, 0).None?
    decreases |s|
  {
    match IndexOf(s, sep, 0)
    case None =>
    case Some(i) =>
      var rest := s[i + |sep|..];
      SplitPieces(rest, sep);
      BeforeFirst(s, sep, i);
      var parts := Split(s, sep);
      assert parts == [s[..i]] + Split(rest, sep);
      forall k | 0 <= k < |parts|
        ensures IndexOf(parts[k], sep, 0).None?
      {
        if k > 0 {
          assert parts[k] == Split(rest, sep)[k - 1];
        }
      }
  }

  /** A text without the separator is one piece. */
  lemma SplitAbsent(s: string, sep: string)
    requires |sep| > 0 && IndexOf(s, sep, 0).None?
    ensures Split(s, sep) == [s]
  {
  }

  /** A fixed stand-in for Char.IsWhiteSpace (the ASCII and Latin-1 blanks). */
  const WhiteSpace: set<char> := {' ', '\t', '\n', '\r', '\U{000B}', '\U{000C}', '\U{0085}', '\U{00A0}'}

  predicate IsWhiteSpace(c: char) {
    c in WhiteSpace
  }

  /** String.Trim(): the text without its leading and trailing blanks. */
  function Trim(s: string): (r: string)
    ensures |r| <= |s|
    decreases |s|
  {
    if s != [] && IsWhiteSpace(s[0]) then Trim(s[1..])
    else if s != [] && IsWhiteSpace(s[|s| - 1]) then Trim(s[..|s| - 1])
    else s
  }

  /** `r` is the slice s[i..j], with only blanks before i and from j on. */
  predicate TrimmedAt(s: string, r: string, i: nat, j: nat) {
    i <= j <= |s| && r == s[i..j] &&
    (forall k :: 0 <= k < i ==> IsWhiteSpace(s[k])) &&
    (forall k :: j <= k < |s| ==> IsWhiteSpace(s[k]))
  }

  lemma TrimmedAfterFirst(s: string, r: string, i: nat, j: nat)
    requires s != [] && IsWhiteSpace(s[0]) && TrimmedAt(s[1..], r, i, j)
    ensures TrimmedAt(s, r, i + 1, j + 1)
  {
    forall k | 0 <= k < i + 1 ensures IsWhiteSpace(s[k]) {
      if k > 0 { assert s[k] == s[1..][k - 1]; }
    }
    forall k | j + 1 <= k < |s| ensures IsWhiteSpace(s[k]) {
      assert s[k] == s[1..][k - 1];
    }
  }

  lemma TrimmedBeforeLast(s: string, r: string, i: nat, j: nat)
    requires s != [] && IsWhiteSpace(s[|s| - 1]) && TrimmedAt(s[..|s| - 1], r, i, j)
    ensures TrimmedAt(s, r, i, j)
  {
    forall k | 0 <= k < i ensures IsWhiteSpace(s[k]) {
      assert s[k] == s[..|s| - 1][k];
    }
    forall k | j <= k < |s| ensures IsWhiteSpace(s[k]) {
      if k < |s| - 1 { assert s[k] == s[..|s| - 1][k]; }
    }
  }

  /** Where the trim sits in the text. */
  lemma {:induction false} TrimBounds(s: string) returns (i: nat, j: nat)
    ensures TrimmedAt(s, Trim(s), i, j)
    decreases |s|
  {
    if s != [] && IsWhiteSpace(s[0]) {
      i, j := TrimBounds(s[1..]);
      TrimmedAfterFirst(s, Trim(s), i, j);
      i, j := i + 1, j + 1;
    } else if s != [] && IsWhiteSpace(s[|s| - 1]) {
      i, j := TrimBounds(s[..|s| - 1]);
      TrimmedBeforeLast(s, Trim(s), i, j);
    } else {
      i, j := 0, |s|;
    }
  }

  /** The trim neither starts nor ends with a blank. */
  lemma {:induction false} TrimEdges(s: string)
    ensures Trim(s) != [] ==> !IsWhiteSpace(Trim(s)[0]) && !IsWhiteSpace(Trim(s)[|Trim(s)| - 1])
    decreases |s|
  {
    if s != [] && IsWhiteSpace(s[0]) {
      TrimEdges(s[1..]);
    } else if s != [] && IsWhiteSpace(s[|s| - 1]) {
      TrimEdges(s[..|s| - 1]);
    }
  }

  /** A text that neither starts nor ends with a blank is its own trim. */
  lemma TrimUnchanged(s: string)
    requires s != [] && !IsWhiteSpace(s[0]) && !IsWhiteSpace(s[|s| - 1])
    ensures Trim(s) == s
  {
  }

  /** Number of occurrences of the character `c`. */
  function Count(s: string, c: char): (n: nat)
    ensures n <= |s|
    ensures n == 0 <==> c !in s
  {
    if s == [] then 0
    else Count(s[..|s| - 1], c) + (if s[|s| - 1] == c then 1 else 0)
  }

  /** A text made only of `c` counts its whole length. */
  lemma {:induction false} CountOnly(s: string, c: char)
    ensures (forall i :: 0 <= i < |s| ==> s[i] == c) ==> Count(s, c) == |s|
    decreases |s|
  {
    if s != [] {
      CountOnly(s[..|s| - 1], c);
    }
  }

  /** Counting one more character of a prefix. */
  lemma CountSnoc(s: string, i: nat, c: char)
    requires i < |s|
    ensures Count(s[..i + 1], c) == Count(s[..i], c) + (if s[i] == c then 1 else 0)
  {
    assert s[..i + 1][..i] == s[..i];
  }

  lemma {:induction false} CountConcat(a: string, b: string, c: char)
    ensures Count(a + b, c) == Count(a, c) + Count(b, c)
    decreases |b|
  {
    if b == [] {
      assert a + b == a;
    } else {
      assert (a + b)[..|a + b| - 1] == a + b[..|b| - 1];
      CountConcat(a, b[..|b| - 1], c);
    }
  }

  predicate IsDigit(c: char) { '0' <= c <= '9' }

  predicate IsDigits(s: string) { forall i :: 0 <= i < |s| ==> IsDigit(s[i]) }

  function DigitChar(d: nat): (c: char)
    requires d < 10
    ensures IsDigit(c) && c as int - '0' as int == d
  {
    (d + '0' as int) as char
  }

  /** Int32.ToString() of a non-negative number: decimal, no leading zeros. */
  function NatToDecimal(n: nat): (s: string)
    ensures s != [] && IsDigits(s)
    ensures n < 10 <==> |s| == 1
    ensures s[0] != '0' || n == 0
  {
    if n < 10 then [DigitChar(n)] else NatToDecimal(n / 10) + [DigitChar(n % 10)]
  }

  /** Int32.Parse of a digit string, without the 32-bit bound. */
  function ParseDecimal(s: string): nat
    requires IsDigits(s)
  {
    if s == [] then 0
    else ParseDecimal(s[..|s| - 1]) * 10 + (s[|s| - 1] as int - '0' as int)
  }

  function Pow10(k: nat): (p: nat)
    ensures p >= 1
  {
    if k == 0 then 1 else 10 * Pow10(k - 1)
  }

  lemma DigitsConcat(a: string, b: string)
    requires IsDigits(a) && IsDigits(b)
    ensures IsDigits(a + b)
  {
    forall i | 0 <= i < |a + b| ensures IsDigit((a + b)[i]) {
      if i < |a| { assert (a + b)[i] == a[i]; } else { assert (a + b)[i] == b[i - |a|]; }
    }
  }

  lemma ShiftArithmetic(p: int, q: int, r: int, d: int)
    ensures (p * q + r) * 10 + d == p * (10 * q) + (r * 10 + d)
  {
  }

  /** Reading digits left to right: the digits of `b` shift those of `a`. */
  lemma {:induction false} ParseDecimalConcat(a: string, b: string)
    requires IsDigits(a) && IsDigits(b)
    ensures IsDigits(a + b)
    ensures ParseDecimal(a + b) == ParseDecimal(a) * Pow10(|b|) + ParseDecimal(b)
    decreases |b|
  {
    DigitsConcat(a, b);
    if b == [] {
      assert a + b == a;
    } else {
      var b' := b[..|b| - 1];
      var d := b[|b| - 1] as int - '0' as int;
      assert (a + b)[..|a + b| - 1] == a + b';
      assert (a + b)[|a + b| - 1] == b[|b| - 1];
      ParseDecimalConcat(a, b');
      assert ParseDecimal(a + b) == ParseDecimal(a + b') * 10 + d;
      ShiftArithmetic(ParseDecimal(a), Pow10(|b'|), ParseDecimal(b'), d);
    }
  }

  /** Parsing undoes printing. */
  lemma {:induction false} ParseNatToDecimal(n: nat)
    ensures ParseDecimal(NatToDecimal(n)) == n
    decreases n
  {
    if n >= 10 {
      var s := NatToDecimal(n);
      assert s[..|s| - 1] == NatToDecimal(n / 10);
      ParseNatToDecimal(n / 10);
    }
  }
}

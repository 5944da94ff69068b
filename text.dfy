/** String operations of the .NET base library that the log processor relies on,
    stated over `string` (a `seq<char>`) with ordinal, code-unit comparison:
    `IndexOf`/`Contains`, `StartsWith`/`EndsWith`, `Split`, `Trim`, and the
    decimal rendering of a count used by string interpolation. */
module Text {

  datatype Option<+T> = None | Some(value: T)

  datatype Result<+T, +E> = Ok(value: T) | Failure(error: E)

  /** `pat` occurs in `s` starting at index `i`. */
  predicate OccursAt(s: string, pat: string, i: nat) {
    i + |pat| <= |s| && s[i..i + |pat|] == pat
  }

  /** Index of the first occurrence of `pat` in `s` at or after `from`. */
  function FindFrom(s: string, pat: string, from: nat): (r: Option<nat>)
    decreases |s| - from
    ensures r.Some? ==> from <= r.value && OccursAt(s, pat, r.value)
    ensures r.Some? ==> forall j: nat :: from <= j < r.value ==> !OccursAt(s, pat, j)
    ensures r.None? ==> forall j: nat :: from <= j ==> !OccursAt(s, pat, j)
  {
    if |s| < from + |pat| then None
    else if OccursAt(s, pat, from) then Some(from)
    else FindFrom(s, pat, from + 1)
  }

  /** Ordinal `s.IndexOf(pat)`: the first index where `pat` occurs. */
  function Find(s: string, pat: string): Option<nat> {
    FindFrom(s, pat, 0)
  }

  /** Ordinal `s.Contains(pat)`. */
  predicate Contains(s: string, pat: string) {
    Find(s, pat).Some?
  }

  lemma ContainsWhenOccurs(s: string, pat: string, i: nat)
    requires OccursAt(s, pat, i)
    ensures Contains(s, pat)
  {
  }

  /** An occurrence with none before it is the one `Find` reports. */
  lemma FindIsFirstOccurrence(s: string, pat: string, i: nat)
    requires OccursAt(s, pat, i)
    requires forall j: nat :: j < i ==> !OccursAt(s, pat, j)
    ensures Find(s, pat) == Some(i)
  {
    var r := Find(s, pat);
    assert r.Some?;
    assert r.value <= i && r.value >= i;
  }

  /** A string containing `p + q` contains `p`. */
  lemma {:induction false} ContainsPrefixOfPattern(s: string, p: string, q: string)
    requires Contains(s, p + q)
    ensures Contains(s, p)
  {
    var i := Find(s, p + q).value;
    assert s[i..i + |p|] == (p + q)[..|p|] == p;
    ContainsWhenOccurs(s, p, i);
  }

  /** A string containing `p + q` contains `q`. */
  lemma {:induction false} ContainsSuffixOfPattern(s: string, p: string, q: string)
    requires Contains(s, p + q)
    ensures Contains(s, q)
  {
    var i := Find(s, p + q).value;
    assert s[i + |p|..i + |p| + |q|] == (p + q)[|p|..] == q;
    ContainsWhenOccurs(s, q, i + |p|);
  }

  /** No occurrence of `pat` starts before `i` in `s`, so none lies inside `s[..i]`. */
  lemma NothingBefore(s: string, pat: string, i: nat)
    requires |pat| > 0 && i <= |s|
    requires forall j: nat :: j < i ==> !OccursAt(s, pat, j)
    ensures !Contains(s[..i], pat)
  {
    if Contains(s[..i], pat) {
      var j := Find(s[..i], pat).value;
      assert s[..i][j..j + |pat|] == s[j..j + |pat|];
      assert OccursAt(s, pat, j);
      assert false;
    }
  }

  /** Ordinal `s.StartsWith(p)`. */
  predicate StartsWith(s: string, p: string) {
    |p| <= |s| && s[..|p|] == p
  }

  /** Ordinal `s.EndsWith(p)`. */
  predicate EndsWith(s: string, p: string) {
    |p| <= |s| && s[|s| - |p|..] == p
  }

  lemma ConcatAssoc(x: string, a: string, b: string, c: string)
    ensures x + a + b + c == x + (a + b + c)
  {
  }

  /** Concatenation of `parts` with `sep` between neighbours (`string.Join`). */
  function Join(parts: seq<string>, sep: string): string
    decreases |parts|
  {
    if |parts| == 0 then ""
    else if |parts| == 1 then parts[0]
    else parts[0] + sep + Join(parts[1..], sep)
  }

  /** `s.Split(sep)` with the default options: `s` cut at every occurrence of
      `sep`, scanning left to right; n occurrences give n + 1 pieces. */
  function Split(s: string, sep: string): (r: seq<string>)
    requires |sep| > 0
    decreases |s|
    ensures |r| >= 1
    ensures Contains(s, sep) <==> |r| >= 2
  {
    match Find(s, sep)
    case None => [s]
    case Some(i) => [s[..i]] + Split(s[i + |sep|..], sep)
  }

  /** Joining the pieces with the separator gives the input back, and no piece
      contains the separator. */
  lemma {:induction false} SplitJoin(s: string, sep: string)
    requires |sep| > 0
    ensures Join(Split(s, sep), sep) == s
    ensures forall k :: 0 <= k < |Split(s, sep)| ==> !Contains(Split(s, sep)[k], sep)
    decreases |s|
  {
    var r := Split(s, sep);
    match Find(s, sep)
    case None =>
      assert r == [s];
    case Some(i) =>
      var rest := s[i + |sep|..];
      var tail := Split(rest, sep);
      assert r == [s[..i]] + tail;
      SplitJoin(rest, sep);
      assert r[0] == s[..i] && r[1..] == tail;
      assert Join(r, sep) == s[..i] + sep + Join(tail, sep);
      CutAround(s, sep, i);
      NothingBefore(s, sep, i);
      forall k | 1 <= k < |r| ensures !Contains(r[k], sep) {
        assert r[k] == tail[k - 1];
      }
  }

  /** A string is what comes before an occurrence, the occurrence, and what follows. */
  lemma CutAround(s: string, pat: string, i: nat)
    requires OccursAt(s, pat, i)
    ensures s == s[..i] + pat + s[i + |pat|..]
  {
  }

  /** `xs` is `ys` with some elements left out, the rest in their order. */
  ghost predicate Subsequence<T>(xs: seq<T>, ys: seq<T>)
    decreases |ys|
  {
    if xs == [] then true
    else if ys == [] then false
    else if xs[0] == ys[0] then Subsequence(xs[1..], ys[1..])
    else Subsequence(xs, ys[1..])
  }

  /** Skipping one more element of `ys` keeps a subsequence a subsequence. */
  lemma {:induction false} SubsequenceOfTail<T>(xs: seq<T>, ys: seq<T>)
    requires ys != [] && Subsequence(xs, ys[1..])
    ensures Subsequence(xs, ys)
    decreases |ys|, 0
  {
    if xs != [] && xs[0] == ys[0] {
      DropHead(xs, ys[1..]);
    }
  }

  /** Leaving out the first element of a subsequence keeps it a subsequence. */
  lemma {:induction false} DropHead<T>(xs: seq<T>, ys: seq<T>)
    requires xs != [] && Subsequence(xs, ys)
    ensures Subsequence(xs[1..], ys)
    decreases |ys|, 1
  {
    if xs[0] == ys[0] {
      SubsequenceOfTail(xs[1..], ys);
    } else {
      DropHead(xs, ys[1..]);
      SubsequenceOfTail(xs[1..], ys);
    }
  }

  /** .NET `char.IsWhiteSpace`: the space, line and paragraph separators of
      Unicode together with U+0009..U+000D and U+0085. */
  predicate IsWhiteSpace(c: char) {
    || c == ' '
    || '\t' <= c <= '\r'
    || c == '\U{85}'
    || c == '\U{A0}'
    || c == '\U{1680}'
    || '\U{2000}' <= c <= '\U{200A}'
    || c == '\U{2028}'
    || c == '\U{2029}'
    || c == '\U{202F}'
    || c == '\U{205F}'
    || c == '\U{3000}'
  }

  /** `s.Trim()`: white space removed from both ends. */
  function Trim(s: string): (r: string)
    decreases |s|
    ensures |r| <= |s|
  {
    if |s| > 0 && IsWhiteSpace(s[0]) then Trim(s[1..])
    else if |s| > 0 && IsWhiteSpace(s[|s| - 1]) then Trim(s[..|s| - 1])
    else s
  }

  /** `r` is `s` with `s[..a]` and everything after `r` removed, all of it white space. */
  ghost predicate TrimmedAt(s: string, r: string, a: nat) {
    && a + |r| <= |s|
    && r == s[a..a + |r|]
    && (forall k :: 0 <= k < a ==> IsWhiteSpace(s[k]))
    && (forall k :: a + |r| <= k < |s| ==> IsWhiteSpace(s[k]))
  }

  /** `Trim` removes white space only, and only from the two ends, and leaves
      neither end white. */
  lemma {:induction false} TrimRemovesEndSpace(s: string)
    ensures exists a: nat :: TrimmedAt(s, Trim(s), a)
    ensures Trim(s) == [] || (!IsWhiteSpace(Trim(s)[0]) && !IsWhiteSpace(Trim(s)[|Trim(s)| - 1]))
    decreases |s|
  {
    var r := Trim(s);
    if |s| > 0 && IsWhiteSpace(s[0]) {
      TrimRemovesEndSpace(s[1..]);
      var a: nat :| TrimmedAt(s[1..], r, a);
      TrimmedAfterFirst(s, r, a);
    } else if |s| > 0 && IsWhiteSpace(s[|s| - 1]) {
      TrimRemovesEndSpace(s[..|s| - 1]);
      var a: nat :| TrimmedAt(s[..|s| - 1], r, a);
      TrimmedBeforeLast(s, r, a);
    } else {
      assert s[0..|s|] == s;
      assert TrimmedAt(s, s, 0);
    }
  }

  /** White space in front of a trimmed string shifts where it starts. */
  lemma TrimmedAfterFirst(s: string, r: string, a: nat)
    requires |s| > 0 && IsWhiteSpace(s[0]) && TrimmedAt(s[1..], r, a)
    ensures TrimmedAt(s, r, a + 1)
  {
    assert s[a + 1..a + 1 + |r|] == s[1..][a..a + |r|];
    forall k | 1 <= k < a + 1 ensures IsWhiteSpace(s[k]) {
      assert s[k] == s[1..][k - 1];
    }
    forall k | a + 1 + |r| <= k < |s| ensures IsWhiteSpace(s[k]) {
      assert s[k] == s[1..][k - 1];
    }
  }

  /** White space after a trimmed string leaves where it starts unchanged. */
  lemma TrimmedBeforeLast(s: string, r: string, a: nat)
    requires |s| > 0 && IsWhiteSpace(s[|s| - 1]) && TrimmedAt(s[..|s| - 1], r, a)
    ensures TrimmedAt(s, r, a)
  {
    assert s[a..a + |r|] == s[..|s| - 1][a..a + |r|];
    forall k | 0 <= k < a ensures IsWhiteSpace(s[k]) {
      assert s[k] == s[..|s| - 1][k];
    }
    forall k | a + |r| <= k < |s| ensures IsWhiteSpace(s[k]) {
      if k < |s| - 1 {
        assert s[k] == s[..|s| - 1][k];
      }
    }
  }

  /** What a `StringBuilder` holds after `AppendLine(l.Trim())` for each line `l`
      in turn, `nl` standing for `Environment.NewLine`. */
  function AppendLines(ls: seq<string>, nl: string): string
    decreases |ls|
  {
    if ls == [] then "" else Trim(ls[0]) + nl + AppendLines(ls[1..], nl)
  }

  function DigitChar(d: nat): (c: char)
    requires d < 10
    ensures '0' <= c <= '9'
  {
    ['0', '1', '2', '3', '4', '5', '6', '7', '8', '9'][d]
  }

  /** Decimal rendering of a non-negative count, as string interpolation prints it. */
  function Decimal(n: nat): (r: string)
    ensures |r| >= 1
    ensures forall k :: 0 <= k < |r| ==> '0' <= r[k] <= '9'
    ensures n >= 10 <==> |r| >= 2
  {
    if n < 10 then [DigitChar(n)] else Decimal(n / 10) + [DigitChar(n % 10)]
  }

  /** The number a string of decimal digits denotes, most significant first. */
  function DigitsValue(r: string): nat
    requires forall k :: 0 <= k < |r| ==> '0' <= r[k] <= '9'
    decreases |r|
  {
    if r == [] then 0
    else 10 * DigitsValue(r[..|r| - 1]) + ((r[|r| - 1] as int) - ('0' as int))
  }

  lemma DigitCharValue(d: nat)
    requires d < 10
    ensures (DigitChar(d) as int) - ('0' as int) == d
  {
    var ds := ['0', '1', '2', '3', '4', '5', '6', '7', '8', '9'];
    assert DigitChar(d) == ds[d];
    if d < 5 {
      assert d == 0 || d == 1 || d == 2 || d == 3 || d == 4;
    } else {
      assert d == 5 || d == 6 || d == 7 || d == 8 || d == 9;
    }
  }

  /** `Decimal(n)` spells `n`, with no leading zero. */
  lemma {:induction false} DecimalValue(n: nat)
    ensures DigitsValue(Decimal(n)) == n
    ensures n >= 10 ==> Decimal(n)[0] != '0'
    decreases n
  {
    var r := Decimal(n);
    if n < 10 {
      DigitCharValue(n);
      assert r[..0] == [];
    } else {
      DecimalValue(n / 10);
      DigitCharValue(n % 10);
      assert r[..|r| - 1] == Decimal(n / 10);
      assert r[0] == Decimal(n / 10)[0];
    }
  }
}

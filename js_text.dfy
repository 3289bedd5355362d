/** Models of the JavaScript string built-ins the wrapper relies on: `trim`,
    `split(' ')[0]`, `toUpperCase` (its ASCII part), `Array.prototype.join`, the
    substring searches behind the two regular-expression replacements, and the
    driver's placeholder convention (`??` for an identifier, `?` for a value). */
module JsText {
  import opened Wrappers

  /** WhiteSpace and LineTerminator code points of ECMAScript: what `trim` removes. */
  predicate IsTrimmable(c: char) {
    var n := c as int;
    n == 0x09 || n == 0x0A || n == 0x0B || n == 0x0C || n == 0x0D || n == 0x20
    || n == 0xA0 || n == 0x1680 || (0x2000 <= n <= 0x200A) || n == 0x2028 || n == 0x2029
    || n == 0x202F || n == 0x205F || n == 0x3000 || n == 0xFEFF
  }

  /** Line terminators: the characters that `.` does not match in a regular expression. */
  predicate IsLineTerminator(c: char) {
    var n := c as int;
    n == 0x0A || n == 0x0D || n == 0x2028 || n == 0x2029
  }

  predicate SingleLine(s: string) {
    forall i :: 0 <= i < |s| ==> !IsLineTerminator(s[i])
  }

  /** Drops leading whitespace: what is left is a suffix of `s` that starts with a
      non-whitespace character, and everything dropped was whitespace. */
  function TrimStart(s: string): (r: string)
    ensures |r| <= |s| && r == s[|s| - |r|..]
    ensures r == [] || !IsTrimmable(r[0])
    ensures forall k :: 0 <= k < |s| - |r| ==> IsTrimmable(s[k])
  {
    if s == [] || !IsTrimmable(s[0]) then s else TrimStart(s[1..])
  }

  /** Drops trailing whitespace: what is left is a prefix of `s` that ends with a
      non-whitespace character, and everything dropped was whitespace. */
  function TrimEnd(s: string): (r: string)
    ensures |r| <= |s| && r == s[..|r|]
    ensures r == [] || !IsTrimmable(r[|r| - 1])
    ensures forall k :: |r| <= k < |s| ==> IsTrimmable(s[k])
  {
    if s == [] || !IsTrimmable(s[|s| - 1]) then s else TrimEnd(s[..|s| - 1])
  }

  /** `String.prototype.trim`. */
  function Trim(s: string): string {
    TrimEnd(TrimStart(s))
  }

  /** What `trim` leaves is a slice of `s`, starting and ending with a non-whitespace
      character, and everything before and after it is whitespace. */
  lemma {:induction false} TrimIsSlice(s: string)
    ensures Trim(s) == [] || (!IsTrimmable(Trim(s)[0]) && !IsTrimmable(Trim(s)[|Trim(s)| - 1]))
    ensures var i := |s| - |TrimStart(s)|;
      i + |Trim(s)| <= |s| && (forall k :: 0 <= k < |Trim(s)| ==> Trim(s)[k] == s[i + k])
    ensures forall k :: 0 <= k < |s| - |TrimStart(s)| ==> IsTrimmable(s[k])
    ensures forall k :: |s| - |TrimStart(s)| + |Trim(s)| <= k < |s| ==> IsTrimmable(s[k])
  {
    TrimEnds(s);
    TrimSpan(s);
    TrimTail(s);
  }

  lemma {:induction false} TrimEnds(s: string)
    ensures Trim(s) == [] || (!IsTrimmable(Trim(s)[0]) && !IsTrimmable(Trim(s)[|Trim(s)| - 1]))
  {
    TrimSliceEnds(TrimStart(s), TrimEnd(TrimStart(s)));
  }

  lemma {:induction false} TrimSpan(s: string)
    ensures var i := |s| - |TrimStart(s)|;
      i + |Trim(s)| <= |s| && (forall k :: 0 <= k < |Trim(s)| ==> Trim(s)[k] == s[i + k])
  {
    TrimSliceIs(s, TrimStart(s), TrimEnd(TrimStart(s)));
  }

  lemma {:induction false} TrimTail(s: string)
    ensures forall k :: |s| - |TrimStart(s)| + |Trim(s)| <= k < |s| ==> IsTrimmable(s[k])
  {
    TrimSliceTail(s, TrimStart(s), TrimEnd(TrimStart(s)));
  }

  lemma TrimSliceEnds(t: string, r: string)
    requires t == [] || !IsTrimmable(t[0])
    requires |r| <= |t| && r == t[..|r|]
    requires r == [] || !IsTrimmable(r[|r| - 1])
    ensures r == [] || (!IsTrimmable(r[0]) && !IsTrimmable(r[|r| - 1]))
  {
    if r != [] {
      assert r[0] == t[0];
    }
  }

  lemma TrimSliceIs(s: string, t: string, r: string)
    requires |t| <= |s| && t == s[|s| - |t|..]
    requires |r| <= |t| && r == t[..|r|]
    ensures |s| - |t| + |r| <= |s| && forall k :: 0 <= k < |r| ==> r[k] == s[|s| - |t| + k]
  {
  }

  lemma TrimSliceTail(s: string, t: string, r: string)
    requires |t| <= |s| && t == s[|s| - |t|..]
    requires |r| <= |t|
    requires forall k :: |r| <= k < |t| ==> IsTrimmable(t[k])
    ensures forall k :: |s| - |t| + |r| <= k < |s| ==> IsTrimmable(s[k])
  {
    forall k | |s| - |t| + |r| <= k < |s|
      ensures IsTrimmable(s[k])
    {
      assert s[k] == t[k - (|s| - |t|)];
    }
  }


  /** `s.split(' ')[0]`: everything before the first U+0020, or all of `s`. */
  function FirstPiece(s: string): (r: string)
    ensures |r| <= |s| && r == s[..|r|]
    ensures forall k :: 0 <= k < |r| ==> r[k] != ' '
    ensures |r| < |s| ==> s[|r|] == ' '
  {
    if s == [] || s[0] == ' ' then [] else [s[0]] + FirstPiece(s[1..])
  }

  /** The first piece is `s[..n]` when `s[..n]` holds no space and a space or the
      end follows it. */
  lemma {:induction false} FirstPieceIs(s: string, n: nat)
    requires n <= |s|
    requires forall k :: 0 <= k < n ==> s[k] != ' '
    requires n == |s| || s[n] == ' '
    ensures FirstPiece(s) == s[..n]
  {
    if n > 0 {
      FirstPieceIs(s[1..], n - 1);
      assert s[..n] == [s[0]] + s[1..][..n - 1];
    }
  }

  /** The ASCII part of `toUpperCase`; other characters are left alone. */
  function UpperChar(c: char): char {
    if 'a' <= c <= 'z' then (c as int - 32) as char else c
  }

  function Upper(s: string): (r: string)
    ensures |r| == |s|
    ensures forall k :: 0 <= k < |s| ==> r[k] == UpperChar(s[k])
  {
    seq(|s|, k requires 0 <= k < |s| => UpperChar(s[k]))
  }

  /** `Array.prototype.join(sep)`. */
  function Join(parts: seq<string>, sep: string): string {
    if |parts| == 0 then ""
    else if |parts| == 1 then parts[0]
    else parts[0] + sep + Join(parts[1..], sep)
  }

  /** An array holding `n` copies of `x`. */
  function Repeat(x: string, n: nat): (r: seq<string>)
    ensures |r| == n && forall k :: 0 <= k < n ==> r[k] == x
  {
    seq(n, _ => x)
  }

  /** Every character of `s` is drawn from `alphabet`. */
  predicate OnlyChars(s: string, alphabet: set<char>) {
    forall k :: 0 <= k < |s| ==> s[k] in alphabet
  }

  lemma OnlyCharsAppend(a: string, b: string, alphabet: set<char>)
    requires OnlyChars(a, alphabet) && OnlyChars(b, alphabet)
    ensures OnlyChars(a + b, alphabet)
  {
    forall k | 0 <= k < |a + b|
      ensures (a + b)[k] in alphabet
    {
      if k >= |a| {
        assert (a + b)[k] == b[k - |a|];
      }
    }
  }

  // ---------------------------------------------------------------------------
  // Substring search (exact; case-insensitive search is exact search in Upper(s))

  predicate MatchesAt(s: string, pat: string, p: int) {
    0 <= p && p + |pat| <= |s| && s[p..p + |pat|] == pat
  }

  predicate Contains(s: string, pat: string) {
    exists p :: 0 <= p <= |s| && MatchesAt(s, pat, p)
  }

  /** The leftmost occurrence of `pat` at or after `from`. */
  function FirstMatchFrom(s: string, pat: string, from: nat): (r: Option<nat>)
    requires from <= |s|
    ensures r.Some? ==> from <= r.value && MatchesAt(s, pat, r.value)
    ensures r.Some? ==> forall j :: from <= j < r.value ==> !MatchesAt(s, pat, j)
    ensures r.None? ==> forall j :: from <= j ==> !MatchesAt(s, pat, j)
    decreases |s| - from
  {
    if MatchesAt(s, pat, from) then Some(from)
    else if from == |s| then None
    else FirstMatchFrom(s, pat, from + 1)
  }

  function FirstMatch(s: string, pat: string): (r: Option<nat>)
    ensures r.Some? ==> MatchesAt(s, pat, r.value)
    ensures r.Some? ==> forall j :: j < r.value ==> !MatchesAt(s, pat, j)
    ensures r.None? <==> !Contains(s, pat)
  {
    FirstMatchFrom(s, pat, 0)
  }

  /** The rightmost occurrence of `pat` that starts below `bound`. */
  function LastMatchBelow(s: string, pat: string, bound: nat): (r: Option<nat>)
    ensures r.Some? ==> r.value < bound && MatchesAt(s, pat, r.value)
    ensures r.Some? ==> forall j :: r.value < j < bound ==> !MatchesAt(s, pat, j)
    ensures r.None? ==> forall j :: j < bound ==> !MatchesAt(s, pat, j)
  {
    if bound == 0 then None
    else if MatchesAt(s, pat, bound - 1) then Some(bound - 1)
    else LastMatchBelow(s, pat, bound - 1)
  }

  function LastMatch(s: string, pat: string): (r: Option<nat>)
    ensures r.Some? ==> MatchesAt(s, pat, r.value)
    ensures r.Some? ==> forall j :: r.value < j ==> !MatchesAt(s, pat, j)
    ensures r.None? <==> !Contains(s, pat)
  {
    LastMatchBelow(s, pat, |s| + 1)
  }

  /** Two texts with the same occurrences of `pat` have the same last occurrence. */
  lemma SameMatchesSameLast(a: string, b: string, pat: string)
    requires forall j :: MatchesAt(a, pat, j) <==> MatchesAt(b, pat, j)
    ensures LastMatch(a, pat) == LastMatch(b, pat)
  {
    var ra, rb := LastMatch(a, pat), LastMatch(b, pat);
    if ra.Some? {
      assert MatchesAt(b, pat, ra.value);
    }
    if rb.Some? {
      assert MatchesAt(a, pat, rb.value);
    }
  }

  /** Occurrences in a slice are occurrences in the whole text, shifted by its start. */
  lemma MatchesInSlice(s: string, pat: string, a: nat, b: nat)
    requires a <= b <= |s|
    ensures forall j :: MatchesAt(s[a..b], pat, j) ==> MatchesAt(s, pat, a + j)
  {
    forall j | MatchesAt(s[a..b], pat, j)
      ensures MatchesAt(s, pat, a + j)
    {
      var w := s[a..b];
      forall k | 0 <= k < |pat|
        ensures s[a + j..a + j + |pat|][k] == pat[k]
      {
        assert pat[k] == w[j..j + |pat|][k] == w[j + k] == s[a + j + k];
      }
      assert s[a + j..a + j + |pat|] == pat;
    }
  }

  /** A prefix of `x + y` no longer than `x` is a prefix of `x`. */
  lemma PrefixOfAppend(x: string, y: string, i: nat)
    requires i <= |x|
    ensures (x + y)[..i] == x[..i]
  {
  }

  /** A suffix of `x + y` that starts inside `x` is a suffix of `x` followed by `y`. */
  lemma SuffixOfAppend(x: string, y: string, i: nat)
    requires i <= |x|
    ensures (x + y)[i..] == x[i..] + y
  {
  }

  /** The characters of a match are those of the pattern. */
  lemma MatchedChar(s: string, pat: string, p: int, k: int)
    requires MatchesAt(s, pat, p) && 0 <= k < |pat|
    ensures s[p + k] == pat[k]
  {
    assert s[p..p + |pat|][k] == s[p + k];
  }

  /** An occurrence in a suffix is an occurrence in the whole text, from the suffix's start on. */
  lemma MatchInSuffix(s: string, pat: string, a: nat, j: int)
    requires a <= |s| && 0 <= j
    ensures MatchesAt(s[a..], pat, j) <==> MatchesAt(s, pat, a + j)
  {
    if j + |pat| <= |s| - a {
      assert s[a..][j..j + |pat|] == s[a + j..a + j + |pat|];
    }
  }

  /** `pat` cannot occur at or after `from` when its `k`-th character does not
      appear in `s` from `from + k` on. */
  lemma NoMatchFrom(s: string, pat: string, k: nat, from: nat)
    requires k < |pat|
    requires forall m :: from + k <= m < |s| ==> s[m] != pat[k]
    ensures forall j :: from <= j ==> !MatchesAt(s, pat, j)
  {
    forall j | from <= j
      ensures !MatchesAt(s, pat, j)
    {
      if j + |pat| <= |s| {
        assert s[j..j + |pat|][k] == s[j + k];
      }
    }
  }

  /** Text without lower-case ASCII letters is its own upper-casing. */
  lemma UpperOfUpper(s: string)
    requires forall k :: 0 <= k < |s| ==> !('a' <= s[k] <= 'z')
    ensures Upper(s) == s
  {
  }

  /** Only a space upper-cases to a space. */
  lemma UpperCharSpace(c: char)
    ensures UpperChar(c) == ' ' <==> c == ' '
  {
  }

  // ---------------------------------------------------------------------------
  // Upper-casing commutes with the text operations above

  lemma UpperAppend(a: string, b: string)
    ensures Upper(a + b) == Upper(a) + Upper(b)
  {
  }

  lemma UpperSlice(s: string, i: nat, j: nat)
    requires i <= j <= |s|
    ensures Upper(s[i..j]) == Upper(s)[i..j]
  {
  }

  lemma UpperSuffix(s: string, i: nat)
    requires i <= |s|
    ensures Upper(s[i..]) == Upper(s)[i..]
  {
  }

  lemma UpperIdempotent(s: string)
    ensures Upper(Upper(s)) == Upper(s)
  {
  }

  /** Upper-casing neither creates nor removes whitespace. */
  lemma UpperCharTrimmable(c: char)
    ensures IsTrimmable(UpperChar(c)) <==> IsTrimmable(c)
    ensures IsTrimmable(c) ==> UpperChar(c) == c
  {
  }

  lemma {:induction false} UpperTrimStart(s: string)
    ensures Upper(TrimStart(s)) == TrimStart(Upper(s))
  {
    if s != [] {
      UpperCharTrimmable(s[0]);
      UpperSuffix(s, 1);
      if IsTrimmable(s[0]) {
        UpperTrimStart(s[1..]);
      }
    }
  }

  lemma {:induction false} UpperTrimEnd(s: string)
    ensures Upper(TrimEnd(s)) == TrimEnd(Upper(s))
  {
    if s != [] {
      UpperCharTrimmable(s[|s| - 1]);
    }
    if s != [] && IsTrimmable(s[|s| - 1]) {
      UpperTrimEnd(s[..|s| - 1]);
      assert Upper(s)[..|s| - 1] == Upper(s[..|s| - 1]);
    }
  }

  lemma {:induction false} UpperFirstPiece(s: string)
    ensures Upper(FirstPiece(s)) == FirstPiece(Upper(s))
  {
    if s != [] && s[0] != ' ' {
      UpperFirstPiece(s[1..]);
      assert Upper(s)[1..] == Upper(s[1..]);
      assert Upper([s[0]] + FirstPiece(s[1..])) == [UpperChar(s[0])] + Upper(FirstPiece(s[1..]));
    }
  }

  // ---------------------------------------------------------------------------
  // Placeholders, as the driver's formatter finds them: `??` and `?`, left to right

  function Placeholders(s: string): nat {
    if s == [] then 0
    else if s[0] == '?' && |s| >= 2 && s[1] == '?' then 1 + Placeholders(s[2..])
    else if s[0] == '?' then 1 + Placeholders(s[1..])
    else Placeholders(s[1..])
  }

  /** Placeholders add up over a concatenation unless a `??` straddles the seam. */
  lemma {:induction false} PlaceholdersAppend(a: string, b: string)
    requires a == [] || b == [] || a[|a| - 1] != '?' || b[0] != '?'
    ensures Placeholders(a + b) == Placeholders(a) + Placeholders(b)
  {
    if a == [] {
      assert a + b == b;
    } else if a[0] == '?' && |a| >= 2 && a[1] == '?' {
      assert (a + b)[2..] == a[2..] + b;
      PlaceholdersAppend(a[2..], b);
    } else if |a| == 1 {
      assert (a + b)[1..] == b;
      assert a[1..] == [];
    } else {
      assert (a + b)[1..] == a[1..] + b;
      PlaceholdersAppend(a[1..], b);
    }
  }

  /** Placeholders add up over three pieces when neither seam can hold a `??`. */
  lemma PlaceholdersAppend3(x: string, y: string, z: string)
    requires x == [] || x[|x| - 1] != '?'
    requires z == [] || z[0] != '?'
    ensures Placeholders(x + y + z) == Placeholders(x) + Placeholders(y) + Placeholders(z)
  {
    PlaceholdersAppend(x, y);
    if y == [] {
      assert x + y == x;
    } else {
      assert (x + y)[|x + y| - 1] == y[|y| - 1];
    }
    PlaceholdersAppend(x + y, z);
  }

  /** Cutting a text in three where no `??` straddles a cut splits its placeholders. */
  lemma PlaceholdersSplit(s: string, a: nat, b: nat)
    requires a <= b <= |s|
    requires a == 0 || s[a - 1] != '?'
    requires b == |s| || s[b] != '?'
    ensures Placeholders(s) == Placeholders(s[..a]) + Placeholders(s[a..b]) + Placeholders(s[b..])
  {
    assert s == s[..a] + s[a..b] + s[b..];
    PlaceholdersAppend3(s[..a], s[a..b], s[b..]);
  }

  lemma {:induction false} NoPlaceholders(s: string)
    requires forall k :: 0 <= k < |s| ==> s[k] != '?'
    ensures Placeholders(s) == 0
  {
    if s != [] {
      NoPlaceholders(s[1..]);
    }
  }
}

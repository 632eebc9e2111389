/** Kotlin string helpers the console programs rely on (String.startsWith,
    indexOf, replace, trim, joinToString, equals with ignoreCase), written
    as recursive functions on `seq<char>` with their defining properties. */
module Text {

  /** A Kotlin nullable value `T?` */
  datatype Option<T> = None | Some(value: T)

  /** `s.startsWith(p)` */
  predicate StartsWith(s: string, p: string) {
    |p| <= |s| && s[..|p|] == p
  }

  /** `p` occurs in `s` at position `k` */
  predicate OccursAt(s: string, p: string, k: int) {
    0 <= k && k + |p| <= |s| && s[k..k + |p|] == p
  }

  /** `s.indexOf(p)`: the first position where `p` occurs, or -1 */
  function IndexOf(s: string, p: string): (k: int)
    ensures -1 <= k <= |s|
    ensures k >= 0 ==> k + |p| <= |s|
    decreases |s|
  {
    if StartsWith(s, p) then 0
    else if s == [] then -1
    else
      var k := IndexOf(s[1..], p);
      if k == -1 then -1 else k + 1
  }

  /** A found position is an occurrence, and no occurrence comes before it. */
  lemma IndexOfFirst(s: string, p: string)
    ensures IndexOf(s, p) >= 0 ==> OccursAt(s, p, IndexOf(s, p))
    ensures forall j :: 0 <= j <= |s| && (IndexOf(s, p) == -1 || j < IndexOf(s, p)) ==> !OccursAt(s, p, j)
  {
    IndexOfFound(s, p);
    IndexOfNoEarlier(s, p);
  }

  lemma {:induction false} IndexOfFound(s: string, p: string)
    ensures IndexOf(s, p) >= 0 ==> OccursAt(s, p, IndexOf(s, p))
    decreases |s|
  {
    if StartsWith(s, p) {
      assert OccursAt(s, p, 0);
    } else if s != [] {
      IndexOfFound(s[1..], p);
      var k := IndexOf(s[1..], p);
      if k >= 0 {
        assert s[1..][k..k + |p|] == s[k + 1..k + 1 + |p|];
      }
    }
  }

  lemma {:induction false} IndexOfNoEarlier(s: string, p: string)
    ensures forall j :: 0 <= j <= |s| && (IndexOf(s, p) == -1 || j < IndexOf(s, p)) ==> !OccursAt(s, p, j)
    decreases |s|
  {
    if !StartsWith(s, p) && s != [] {
      IndexOfNoEarlier(s[1..], p);
      OccursShift(s, p);
      var k := IndexOf(s[1..], p);
      forall j | 0 <= j <= |s| && (IndexOf(s, p) == -1 || j < IndexOf(s, p))
        ensures !OccursAt(s, p, j)
      {
        if j == 0 {
          assert !StartsWith(s, p);
        } else {
          assert !OccursAt(s[1..], p, j - 1);
        }
      }
    }
  }

  /** -1 exactly when `p` occurs nowhere */
  lemma IndexOfAbsent(s: string, p: string)
    ensures IndexOf(s, p) == -1 <==> forall j :: 0 <= j <= |s| ==> !OccursAt(s, p, j)
  {
    IndexOfFirst(s, p);
  }

  /** An occurrence with none before it is the position `indexOf` finds. */
  lemma IndexOfAt(s: string, p: string, k: int)
    requires OccursAt(s, p, k)
    requires forall j :: 0 <= j < k ==> !OccursAt(s, p, j)
    ensures IndexOf(s, p) == k
  {
    IndexOfFirst(s, p);
  }

  /** An occurrence after the first character is an occurrence in the tail. */
  lemma OccursShift(s: string, p: string)
    requires s != []
    ensures forall j {:trigger OccursAt(s, p, j)} :: 1 <= j <= |s| ==> (OccursAt(s, p, j) <==> OccursAt(s[1..], p, j - 1))
  {
    forall j | 1 <= j <= |s| ensures OccursAt(s, p, j) <==> OccursAt(s[1..], p, j - 1) {
      if j + |p| <= |s| {
        var t, u := s[j..j + |p|], s[1..][j - 1..j - 1 + |p|];
        assert forall i :: 0 <= i < |p| ==> t[i] == u[i];
      }
    }
  }

  /** The first occurrence stays first when text is appended after it. */
  lemma {:induction false} IndexOfExtend(s: string, t: string, p: string)
    requires IndexOf(s, p) >= 0
    ensures IndexOf(s + t, p) == IndexOf(s, p)
  {
    var k := IndexOf(s, p);
    IndexOfFirst(s, p);
    assert (s + t)[k..k + |p|] == s[k..k + |p|];
    assert OccursAt(s + t, p, k);
    forall j | 0 <= j < k
      ensures !OccursAt(s + t, p, j)
    {
      if OccursAt(s + t, p, j) {
        assert j + |p| <= |s|;
        assert (s + t)[j..j + |p|] == s[j..j + |p|];
        assert OccursAt(s, p, j);
      }
    }
    IndexOfAt(s + t, p, k);
  }

  /** `s.replace(pat, rep)`: every occurrence of `pat`, found left to right
      and without overlap, is replaced by `rep`. */
  function ReplaceAll(s: string, pat: string, rep: string): string
    requires |pat| > 0
    decreases |s|
  {
    if |s| < |pat| then s
    else if s[..|pat|] == pat then rep + ReplaceAll(s[|pat|..], pat, rep)
    else [s[0]] + ReplaceAll(s[1..], pat, rep)
  }

  /** How many replacements `ReplaceAll(s, pat, _)` performs */
  function Count(s: string, pat: string): nat
    requires |pat| > 0
    decreases |s|
  {
    if |s| < |pat| then 0
    else if s[..|pat|] == pat then 1 + Count(s[|pat|..], pat)
    else Count(s[1..], pat)
  }

  /** The length of a replacement changes by the length difference per occurrence. */
  lemma {:induction false} ReplaceAllLength(s: string, pat: string, rep: string)
    requires |pat| > 0
    ensures |ReplaceAll(s, pat, rep)| == |s| + Count(s, pat) * (|rep| - |pat|)
    decreases |s|
  {
    if |s| < |pat| {
    } else if s[..|pat|] == pat {
      var t := s[|pat|..];
      ReplaceAllLength(t, pat, rep);
      assert ReplaceAll(s, pat, rep) == rep + ReplaceAll(t, pat, rep);
      assert Count(s, pat) == 1 + Count(t, pat);
      MulStep(Count(t, pat), |rep| - |pat|);
    } else {
      ReplaceAllLength(s[1..], pat, rep);
    }
  }

  lemma MulStep(c: int, d: int)
    ensures (1 + c) * d == d + c * d
  {
  }

  /** No replacement happens exactly when the pattern does not occur. */
  lemma {:induction false} CountZero(s: string, pat: string)
    requires |pat| > 0
    ensures Count(s, pat) == 0 <==> IndexOf(s, pat) == -1
    decreases |s|
  {
    if |s| < |pat| {
      IndexOfShort(s, pat);
    } else if s[..|pat|] == pat {
      assert StartsWith(s, pat);
    } else {
      CountZero(s[1..], pat);
    }
  }

  /** A text shorter than the pattern holds no occurrence. */
  lemma {:induction false} IndexOfShort(s: string, p: string)
    requires |s| < |p|
    ensures IndexOf(s, p) == -1
    decreases |s|
  {
    if s != [] {
      IndexOfShort(s[1..], p);
    }
  }

  /** Without a replacement the text is unchanged. */
  lemma {:induction false} ReplaceAllNone(s: string, pat: string, rep: string)
    requires |pat| > 0 && Count(s, pat) == 0
    ensures ReplaceAll(s, pat, rep) == s
    decreases |s|
  {
    if |s| >= |pat| {
      ReplaceAllNone(s[1..], pat, rep);
      assert [s[0]] + s[1..] == s;
    }
  }

  /** A leading character that cannot begin the pattern is copied. */
  lemma ReplaceAllSkip(c: char, t: string, pat: string, rep: string)
    requires |pat| > 0 && c != pat[0]
    ensures ReplaceAll([c] + t, pat, rep) == [c] + ReplaceAll(t, pat, rep)
  {
    var s := [c] + t;
    assert s[1..] == t;
    if |s| < |pat| {
      assert |t| < |pat|;
    }
  }

  /** A leading occurrence of the pattern is replaced. */
  lemma ReplaceAllHit(t: string, pat: string, rep: string)
    requires |pat| > 0
    ensures ReplaceAll(pat + t, pat, rep) == rep + ReplaceAll(t, pat, rep)
  {
    var s := pat + t;
    assert s[..|pat|] == pat && s[|pat|..] == t;
  }

  /** A one-character pattern cannot straddle a join, so its replacement
      distributes over concatenation. */
  lemma {:induction false} ReplaceCharConcat(a: string, b: string, c: char, rep: string)
    ensures ReplaceAll(a + b, [c], rep) == ReplaceAll(a, [c], rep) + ReplaceAll(b, [c], rep)
    decreases |a|
  {
    if a != [] {
      var s := a + b;
      assert s[1..] == a[1..] + b;
      assert s[..1] == a[..1];
      ReplaceCharConcat(a[1..], b, c, rep);
      if a[..1] == [c] {
        assert ReplaceAll(s, [c], rep) == rep + ReplaceAll(s[1..], [c], rep);
        assert ReplaceAll(a, [c], rep) == rep + ReplaceAll(a[1..], [c], rep);
      } else {
        assert ReplaceAll(s, [c], rep) == [s[0]] + ReplaceAll(s[1..], [c], rep);
        assert ReplaceAll(a, [c], rep) == [a[0]] + ReplaceAll(a[1..], [c], rep);
      }
    } else {
      assert a + b == b;
    }
  }

  /** Replacing a character that does not occur changes nothing. */
  lemma {:induction false} ReplaceCharAbsent(s: string, c: char, rep: string)
    requires c !in s
    ensures ReplaceAll(s, [c], rep) == s
    decreases |s|
  {
    if s != [] {
      assert s[..1] != [c] by { assert s[..1][0] == s[0]; }
      ReplaceCharAbsent(s[1..], c, rep);
      assert [s[0]] + s[1..] == s;
    }
  }

  /** A text without the pattern's first character holds no occurrence, so
      nothing is replaced. */
  lemma {:induction false} ReplaceAllAbsentHead(s: string, pat: string, rep: string)
    requires |pat| > 0 && pat[0] !in s
    ensures ReplaceAll(s, pat, rep) == s
    decreases |s|
  {
    if s != [] {
      ReplaceAllAbsentHead(s[1..], pat, rep);
      ReplaceAllSkip(s[0], s[1..], pat, rep);
      assert [s[0]] + s[1..] == s;
    }
  }

  /** Whitespace as Kotlin's `Char.isWhitespace` decides it, restricted to ASCII */
  predicate IsWhitespace(c: char) {
    c == ' ' || '\t' <= c <= '\r' || '\U{1C}' <= c <= '\U{1F}'
  }

  /** `s.trim()` */
  function Trim(s: string): (r: string)
    ensures |r| <= |s|
    ensures r != [] ==> !IsWhitespace(r[0]) && !IsWhitespace(r[|r| - 1])
  {
    TrimEnd(TrimStart(s))
  }

  /** Leading whitespace removed */
  function TrimStart(s: string): (r: string)
    ensures |r| <= |s| && r == s[|s| - |r|..]
    ensures r != [] ==> !IsWhitespace(r[0])
    decreases |s|
  {
    if s != [] && IsWhitespace(s[0]) then TrimStart(s[1..]) else s
  }

  /** Trailing whitespace removed */
  function TrimEnd(s: string): (r: string)
    ensures |r| <= |s| && r == s[..|r|]
    ensures r != [] ==> !IsWhitespace(r[|r| - 1])
    decreases |s|
  {
    if s != [] && IsWhitespace(s[|s| - 1]) then TrimEnd(s[..|s| - 1]) else s
  }

  lemma {:induction false} TrimStartDrops(s: string)
    ensures forall i :: 0 <= i < |s| - |TrimStart(s)| ==> IsWhitespace(s[i])
    decreases |s|
  {
    if s != [] && IsWhitespace(s[0]) {
      TrimStartDrops(s[1..]);
      forall i | 1 <= i < |s| - |TrimStart(s)| ensures IsWhitespace(s[i]) {
        assert s[i] == s[1..][i - 1];
      }
    }
  }

  lemma {:induction false} TrimEndDrops(s: string)
    ensures forall i :: |TrimEnd(s)| <= i < |s| ==> IsWhitespace(s[i])
    decreases |s|
  {
    if s != [] && IsWhitespace(s[|s| - 1]) {
      TrimEndDrops(s[..|s| - 1]);
      forall i | |TrimEnd(s)| <= i < |s| - 1 ensures IsWhitespace(s[i]) {
        assert s[i] == s[..|s| - 1][i];
      }
    }
  }

  /** `trim` keeps the slice between the leading and the trailing whitespace */
  lemma TrimIsSlice(s: string)
    ensures |s| - |TrimStart(s)| + |Trim(s)| <= |s|
    ensures Trim(s) == s[|s| - |TrimStart(s)|..|s| - |TrimStart(s)| + |Trim(s)|]
  {
    SuffixPrefix(s, TrimStart(s), Trim(s));
  }

  /** What `trim` drops on either side is whitespace. */
  lemma TrimDropsWhitespace(s: string)
    ensures forall i :: 0 <= i < |s| - |TrimStart(s)| ==> IsWhitespace(s[i])
    ensures forall i :: |s| - |TrimStart(s)| + |Trim(s)| <= i < |s| ==> IsWhitespace(s[i])
  {
    var t := TrimStart(s);
    var a := |s| - |t|;
    TrimStartDrops(s);
    TrimEndDrops(t);
    forall i | a + |Trim(s)| <= i < |s| ensures IsWhitespace(s[i]) {
      assert s[i] == s[a..][i - a] == t[i - a];
    }
  }

  /** `trim` leaves nothing exactly when the text is all whitespace. */
  lemma TrimEmptyIff(s: string)
    ensures Trim(s) == [] <==> forall i :: 0 <= i < |s| ==> IsWhitespace(s[i])
  {
    TrimDropsWhitespace(s);
    TrimIsSlice(s);
    if Trim(s) != [] {
      var a := |s| - |TrimStart(s)|;
      assert Trim(s)[0] == s[a];
    }
  }

  /** A prefix of a suffix is a slice, and the rest of the suffix is the tail
      of the whole. */
  lemma SuffixPrefix(s: string, t: string, r: string)
    requires |t| <= |s| && t == s[|s| - |t|..]
    requires |r| <= |t| && r == t[..|r|]
    ensures r == s[|s| - |t|..|s| - |t| + |r|]
  {
  }

  /** Text that neither starts nor ends with whitespace is left alone by `trim`. */
  lemma TrimUnchanged(s: string)
    requires s != [] && !IsWhitespace(s[0]) && !IsWhitespace(s[|s| - 1])
    ensures Trim(s) == s
  {
    assert TrimStart(s) == s;
    assert TrimEnd(s) == s;
  }

  /** `parts.joinToString(sep)` */
  function Join(sep: string, parts: seq<string>): string
    decreases |parts|
  {
    if parts == [] then []
    else if |parts| == 1 then parts[0]
    else parts[0] + sep + Join(sep, parts[1..])
  }

  /** Joining one more part adds a separator and that part at the end. */
  lemma {:induction false} JoinAppend(sep: string, parts: seq<string>, last: string)
    requires parts != []
    ensures Join(sep, parts + [last]) == Join(sep, parts) + sep + last
    decreases |parts|
  {
    var ps := parts + [last];
    assert ps[1..] == parts[1..] + [last];
    if |parts| > 1 {
      JoinAppend(sep, parts[1..], last);
    }
  }

  /** ASCII case folding: `Char.lowercaseChar` on the Latin letters */
  function LowerAscii(c: char): char {
    if 'A' <= c <= 'Z' then (c as int + 32) as char else c
  }

  /** Every character of `s` folded with `LowerAscii` */
  function LowerAsciiText(s: string): string {
    seq(|s|, i requires 0 <= i < |s| => LowerAscii(s[i]))
  }

  /** `a.equals(b, ignoreCase = true)`, with ASCII case folding */
  predicate EqualsIgnoreCase(a: string, b: string) {
    |a| == |b| && forall i :: 0 <= i < |a| ==> LowerAscii(a[i]) == LowerAscii(b[i])
  }
}

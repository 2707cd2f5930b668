/**
  The JavaScript string operations the textbook view uses: `trim`,
  `startsWith`, `indexOf`, `replace` with a string pattern (first occurrence
  only) and `split` on a one-character separator.
 */
module JsString {

  /**
    ECMAScript WhiteSpace and LineTerminator code points, which `trim`
    removes: TAB, VT, FF, ZWNBSP, the space separators (Zs) and LF, CR, LS, PS.
   */
  predicate IsWhitespace(c: char)
  {
    || c == '\t' || c == '\n' || c == '\U{000B}' || c == '\U{000C}' || c == '\r'
    || c == ' ' || c == '\U{00A0}' || c == '\U{1680}'
    || ('\U{2000}' <= c <= '\U{200A}')
    || c == '\U{2028}' || c == '\U{2029}' || c == '\U{202F}' || c == '\U{205F}'
    || c == '\U{3000}' || c == '\U{FEFF}'
  }

  predicate AllWhitespace(s: string)
  {
    forall k :: 0 <= k < |s| ==> IsWhitespace(s[k])
  }

  /** `trimStart`: a suffix of `s` that drops leading whitespace only. */
  function TrimStart(s: string): (r: string)
    ensures |r| <= |s| && r == s[|s| - |r|..]
    ensures AllWhitespace(s[..|s| - |r|])
    ensures r != [] ==> !IsWhitespace(r[0])
    ensures r == [] <==> AllWhitespace(s)
  {
    if |s| > 0 && IsWhitespace(s[0]) then
      var r := TrimStart(s[1..]);
      TrimStartStep(s, r);
      r
    else s
  }

  /** One step of `TrimStart`: dropping a leading whitespace character keeps its contract. */
  lemma TrimStartStep(s: string, r: string)
    requires |s| > 0 && IsWhitespace(s[0])
    requires |r| <= |s| - 1 && r == s[1..][|s| - 1 - |r|..]
    requires AllWhitespace(s[1..][..|s| - 1 - |r|])
    requires r == [] <==> AllWhitespace(s[1..])
    ensures r == s[|s| - |r|..]
    ensures AllWhitespace(s[..|s| - |r|])
    ensures r == [] <==> AllWhitespace(s)
  {
    var m := |s| - |r|;
    assert s[1..][m - 1..] == s[m..];
    forall k | 0 <= k < m
      ensures IsWhitespace(s[..m][k])
    {
      if k > 0 {
        assert s[..m][k] == s[1..][..m - 1][k - 1];
      }
    }
    if AllWhitespace(s[1..]) {
      forall k | 0 <= k < |s|
        ensures IsWhitespace(s[k])
      {
        if k > 0 {
          assert s[k] == s[1..][k - 1];
        }
      }
    }
    if AllWhitespace(s) {
      assert forall k :: 0 <= k < |s[1..]| ==> s[1..][k] == s[k + 1];
    }
  }

  /** `trimEnd`: a prefix of `s` that drops trailing whitespace only. */
  function TrimEnd(s: string): (r: string)
    ensures |r| <= |s| && r == s[..|r|]
    ensures AllWhitespace(s[|r|..])
    ensures r != [] ==> !IsWhitespace(r[|r| - 1])
    ensures r == [] <==> AllWhitespace(s)
  {
    if |s| > 0 && IsWhitespace(s[|s| - 1]) then TrimEnd(s[..|s| - 1]) else s
  }

  /** `trim`: neither end of the result is whitespace; it is empty exactly when `s` is all whitespace. */
  function Trim(s: string): (r: string)
    ensures r != [] ==> !IsWhitespace(r[0]) && !IsWhitespace(r[|r| - 1])
    ensures r == [] <==> AllWhitespace(s)
  {
    TrimEnd(TrimStart(s))
  }

  /** `trim` returns the middle of `s`: exactly its leading and trailing whitespace is removed. */
  lemma TrimIsMiddle(s: string)
    ensures var r := Trim(s);
      exists a :: 0 <= a && a + |r| <= |s| && r == s[a..a + |r|]
                  && AllWhitespace(s[..a]) && AllWhitespace(s[a + |r|..])
  {
    MiddleOfSuffixPrefix(s, TrimStart(s), Trim(s));
  }

  /** A prefix `r` of a suffix `t` of `s` is a middle slice of `s`. */
  lemma MiddleOfSuffixPrefix(s: string, t: string, r: string)
    requires |t| <= |s| && t == s[|s| - |t|..] && AllWhitespace(s[..|s| - |t|])
    requires |r| <= |t| && r == t[..|r|] && AllWhitespace(t[|r|..])
    ensures exists a :: 0 <= a && a + |r| <= |s| && r == s[a..a + |r|]
                        && AllWhitespace(s[..a]) && AllWhitespace(s[a + |r|..])
  {
    var a := |s| - |t|;
    assert t[|r|..] == s[a + |r|..];
    assert r == s[a..a + |r|];
  }

  /** `startsWith` (see `StartsWithCharwise` and `StartsWithIndexOf`). */
  predicate StartsWith(s: string, prefix: string)
  {
    |prefix| <= |s| && s[..|prefix|] == prefix
  }

  /** `startsWith` compares the first characters one by one. */
  lemma StartsWithCharwise(s: string, prefix: string)
    ensures StartsWith(s, prefix) <==>
              |prefix| <= |s| && forall k :: 0 <= k < |prefix| ==> s[k] == prefix[k]
  {
    if |prefix| <= |s| && forall k :: 0 <= k < |prefix| ==> s[k] == prefix[k] {
      assert s[..|prefix|] == prefix;
    }
  }

  /** Starting with `prefix` is an occurrence at position 0. */
  lemma StartsWithOccursAt(s: string, prefix: string)
    ensures StartsWith(s, prefix) <==> OccursAt(s, prefix, 0)
  {
    if |prefix| <= |s| {
      assert s[0..|prefix|] == s[..|prefix|];
    }
  }

  predicate OccursAt(s: string, pattern: string, i: nat)
  {
    i + |pattern| <= |s| && s[i..i + |pattern|] == pattern
  }

  /** `indexOf`: the first position where `pattern` occurs, or -1 (see `IndexOfIsFirst`). */
  function IndexOf(s: string, pattern: string): (r: int)
    ensures -1 <= r <= |s|
    ensures r >= 0 ==> OccursAt(s, pattern, r)
    decreases |s|
  {
    if |s| < |pattern| then -1
    else if StartsWith(s, pattern) then
      assert OccursAt(s, pattern, 0) by {
        assert s[0..|pattern|] == s[..|pattern|];
      }
      0
    else
      var k := IndexOf(s[1..], pattern);
      if k < 0 then -1
      else
        OccursShift(s, pattern, k + 1);
        k + 1
  }

  /** No earlier position holds the pattern, and -1 means it occurs nowhere. */
  lemma {:induction false} IndexOfIsFirst(s: string, pattern: string)
    ensures var r := IndexOf(s, pattern);
            r >= 0 ==> forall j :: 0 <= j < r ==> !OccursAt(s, pattern, j)
    ensures IndexOf(s, pattern) == -1 <==> forall j :: 0 <= j <= |s| ==> !OccursAt(s, pattern, j)
    decreases |s|
  {
    if |s| >= |pattern| && !StartsWith(s, pattern) {
      IndexOfIsFirst(s[1..], pattern);
      assert !OccursAt(s, pattern, 0) by {
        assert s[0..|pattern|] == s[..|pattern|];
      }
      forall j | 0 < j <= |s|
        ensures OccursAt(s, pattern, j) == OccursAt(s[1..], pattern, j - 1)
      {
        OccursShift(s, pattern, j);
      }
    }
  }

  /** `s.startsWith(p)` holds exactly when `indexOf` finds `p` at position 0. */
  lemma StartsWithIndexOf(s: string, pattern: string)
    ensures StartsWith(s, pattern) <==> IndexOf(s, pattern) == 0
  {
    StartsWithOccursAt(s, pattern);
  }

  /** An occurrence at `j > 0` is an occurrence at `j - 1` in the tail. */
  lemma OccursShift(s: string, pattern: string, j: nat)
    requires 0 < j <= |s|
    ensures OccursAt(s, pattern, j) == OccursAt(s[1..], pattern, j - 1)
  {
    if j + |pattern| <= |s| {
      var x, y := s[j..j + |pattern|], s[1..][j - 1..j - 1 + |pattern|];
      assert forall t :: 0 <= t < |x| ==> x[t] == y[t];
      assert x == y;
    }
  }

  /** `replace(pattern, '')`: removes the first occurrence, if any. */
  function ReplaceFirst(s: string, pattern: string): (r: string)
    ensures |r| <= |s|
    decreases |s|
  {
    if |s| < |pattern| then s
    else if StartsWith(s, pattern) then s[|pattern|..]
    else [s[0]] + ReplaceFirst(s[1..], pattern)
  }

  /** Removing the first occurrence is cutting it out at the position `indexOf` reports. */
  lemma ReplaceFirstCutsAtIndexOf(s: string, pattern: string)
    ensures var i := IndexOf(s, pattern);
            ReplaceFirst(s, pattern) == if i < 0 then s else s[..i] + s[i + |pattern|..]
  {
    IndexOfIsFirst(s, pattern);
    var i := IndexOf(s, pattern);
    if i < 0 {
      ReplaceFirstAbsent(s, pattern);
    } else {
      ReplaceFirstAt(s, pattern, i);
    }
  }

  /** `replace` shortens the string by the pattern's length exactly when the pattern occurs. */
  lemma ReplaceFirstLength(s: string, pattern: string)
    ensures |ReplaceFirst(s, pattern)| == if IndexOf(s, pattern) < 0 then |s| else |s| - |pattern|
  {
    ReplaceFirstCutsAtIndexOf(s, pattern);
  }

  /** With no occurrence, `replace` leaves the string alone. */
  lemma {:induction false} ReplaceFirstAbsent(s: string, pattern: string)
    requires forall j :: 0 <= j <= |s| ==> !OccursAt(s, pattern, j)
    ensures ReplaceFirst(s, pattern) == s
    decreases |s|
  {
    if |s| >= |pattern| {
      assert !StartsWith(s, pattern) by {
        assert !OccursAt(s, pattern, 0);
        assert s[0..|pattern|] == s[..|pattern|];
      }
      forall j | 0 <= j <= |s[1..]|
        ensures !OccursAt(s[1..], pattern, j)
      {
        OccursShift(s, pattern, j + 1);
      }
      ReplaceFirstAbsent(s[1..], pattern);
      assert [s[0]] + s[1..] == s;
    }
  }

  /** With the first occurrence at `i`, `replace` cuts out exactly that one. */
  lemma {:induction false} ReplaceFirstAt(s: string, pattern: string, i: nat)
    requires OccursAt(s, pattern, i)
    requires forall j :: 0 <= j < i ==> !OccursAt(s, pattern, j)
    ensures ReplaceFirst(s, pattern) == s[..i] + s[i + |pattern|..]
    decreases i
  {
    if i == 0 {
      assert ReplaceFirst(s, pattern) == s[|pattern|..];
      assert s[..i] + s[i + |pattern|..] == s[|pattern|..];
    } else {
      var t := s[1..];
      assert ReplaceFirst(s, pattern) == [s[0]] + ReplaceFirst(t, pattern) by {
        assert !OccursAt(s, pattern, 0);
      }
      assert OccursAt(t, pattern, i - 1) by {
        OccursShift(s, pattern, i);
      }
      assert forall j :: 0 <= j < i - 1 ==> !OccursAt(t, pattern, j) by {
        forall j | 0 <= j < i - 1
          ensures !OccursAt(t, pattern, j)
        {
          OccursShift(s, pattern, j + 1);
        }
      }
      ReplaceFirstAt(t, pattern, i - 1);
      CutShift(s, t, ReplaceFirst(t, pattern), i, |pattern|);
      assert ReplaceFirst(s, pattern) == s[..i] + s[i + |pattern|..];
    }
  }

  /** Cutting `n` characters at `i` commutes with putting back the first character. */
  lemma CutShift(s: string, t: string, rest: string, i: nat, n: nat)
    requires 0 < i && i + n <= |s| && t == s[1..]
    requires rest == t[..i - 1] + t[i - 1 + n..]
    ensures [s[0]] + rest == s[..i] + s[i + n..]
  {
    assert t[..i - 1] == s[1..i];
    assert t[i - 1 + n..] == s[i + n..];
    assert [s[0]] + s[1..i] == s[..i];
  }


  // ---------------------------------------------------------------------------
  // Trim lemmas

  lemma {:induction false} TrimStartLeading(ws: string, s: string)
    requires AllWhitespace(ws)
    ensures TrimStart(ws + s) == TrimStart(s)
  {
    if |ws| > 0 {
      assert (ws + s)[1..] == ws[1..] + s;
      TrimStartLeading(ws[1..], s);
    } else {
      assert ws + s == s;
    }
  }

  lemma {:induction false} TrimEndTrailing(s: string, ws: string)
    requires AllWhitespace(ws)
    ensures TrimEnd(s + ws) == TrimEnd(s)
  {
    if |ws| > 0 {
      var w := ws[..|ws| - 1];
      assert (s + ws)[..|s + ws| - 1] == s + w;
      TrimEndTrailing(s, w);
    } else {
      assert s + ws == s;
    }
  }

  lemma {:induction false} TrimStartAppend(s: string, tail: string)
    requires !AllWhitespace(s)
    ensures TrimStart(s + tail) == TrimStart(s) + tail
  {
    if IsWhitespace(s[0]) {
      assert (s + tail)[1..] == s[1..] + tail;
      TrimStartAppend(s[1..], tail);
    }
  }

  /** Trailing whitespace does not change the trimmed text. */
  lemma TrimIgnoresTrailing(s: string, ws: string)
    requires AllWhitespace(ws)
    ensures Trim(s + ws) == Trim(s)
  {
    if AllWhitespace(s) {
      assert AllWhitespace(s + ws);
    } else {
      TrimStartAppend(s, ws);
      TrimEndTrailing(TrimStart(s), ws);
    }
  }

  /** Leading whitespace does not change the trimmed text. */
  lemma TrimIgnoresLeading(ws: string, s: string)
    requires AllWhitespace(ws)
    ensures Trim(ws + s) == Trim(s)
  {
    TrimStartLeading(ws, s);
  }

  /**
    When the trimmed string starts with `pattern` (whose first character is not
    whitespace), removing the first occurrence from the untrimmed string and
    trimming gives the trimmed string without that prefix, trimmed again.
   */
  lemma {:induction false} ReplaceFirstAfterTrim(s: string, pattern: string)
    requires pattern != [] && !IsWhitespace(pattern[0])
    requires StartsWith(Trim(s), pattern)
    ensures Trim(ReplaceFirst(s, pattern)) == Trim(Trim(s)[|pattern|..])
    decreases |s|
  {
    if IsWhitespace(s[0]) {
      var t := s[1..];
      var rest := ReplaceFirst(t, pattern);
      ReplaceFirstSkipsWhitespace(s, pattern);
      ReplaceFirstAfterTrim(t, pattern);
      assert AllWhitespace([s[0]]);
      TrimIgnoresLeading([s[0]], rest);
      assert Trim(ReplaceFirst(s, pattern)) == Trim(rest);
    } else {
      ReplaceFirstAtStart(s, pattern);
    }
  }

  lemma ReplaceFirstSkipsWhitespace(s: string, pattern: string)
    requires pattern != [] && !IsWhitespace(pattern[0])
    requires StartsWith(Trim(s), pattern) && IsWhitespace(s[0])
    ensures Trim(s[1..]) == Trim(s)
    ensures ReplaceFirst(s, pattern) == [s[0]] + ReplaceFirst(s[1..], pattern)
  {
    assert TrimStart(s) == TrimStart(s[1..]);
    assert |pattern| <= |s|;
    assert !StartsWith(s, pattern) by {
      assert s[0] != pattern[0];
    }
  }

  lemma ReplaceFirstAtStart(s: string, pattern: string)
    requires pattern != []
    requires StartsWith(Trim(s), pattern) && !IsWhitespace(s[0])
    ensures Trim(ReplaceFirst(s, pattern)) == Trim(Trim(s)[|pattern|..])
  {
    var e := TrimEnd(s);
    assert TrimStart(s) == s;
    assert e == Trim(s);
    PrefixSplit(s, e, |pattern|);
    assert StartsWith(s, pattern);
    assert ReplaceFirst(s, pattern) == e[|pattern|..] + s[|e|..];
    TrimIgnoresTrailing(e[|pattern|..], s[|e|..]);
  }

  /** Cutting a string at a point inside one of its prefixes. */
  lemma PrefixSplit(s: string, e: string, n: nat)
    requires |e| <= |s| && e == s[..|e|] && n <= |e|
    ensures s[..n] == e[..n]
    ensures s[n..] == e[n..] + s[|e|..]
  {
    assert s == e + s[|e|..];
  }

  // ---------------------------------------------------------------------------
  // split and join

  /** `split(sep)` with a one-character separator: never empty, no piece holds `sep`. */
  function Split(s: string, sep: char): (r: seq<string>)
    ensures |r| >= 1
    ensures forall i :: 0 <= i < |r| ==> sep !in r[i]
  {
    if |s| == 0 then [""]
    else if s[0] == sep then [""] + Split(s[1..], sep)
    else
      var rest := Split(s[1..], sep);
      [[s[0]] + rest[0]] + rest[1..]
  }

  /** `join(sep)`. */
  function Join(parts: seq<string>, sep: char): (r: string)
  {
    if |parts| == 0 then ""
    else if |parts| == 1 then parts[0]
    else parts[0] + [sep] + Join(parts[1..], sep)
  }

  /** Splitting loses nothing: joining the pieces gives the string back. */
  lemma {:induction false} JoinSplit(s: string, sep: char)
    ensures Join(Split(s, sep), sep) == s
  {
    if |s| > 0 {
      JoinSplit(s[1..], sep);
      var rest := Split(s[1..], sep);
      if s[0] == sep {
        assert Split(s, sep)[1..] == rest;
      } else {
        var r := Split(s, sep);
        assert r[0] == [s[0]] + rest[0] && r[1..] == rest[1..];
        assert s == [s[0]] + s[1..];
        if |rest| > 1 {
          assert Join(rest, sep) == rest[0] + [sep] + Join(rest[1..], sep);
          assert Join(r, sep) == [s[0]] + Join(rest, sep);
        } else {
          assert Join(r, sep) == [s[0]] + rest[0];
        }
      }
    }
  }

  /** Joining pieces free of the separator and splitting again gives the pieces back. */
  lemma {:induction false} SplitJoin(parts: seq<string>, sep: char)
    requires |parts| >= 1
    requires forall i :: 0 <= i < |parts| ==> sep !in parts[i]
    ensures Split(Join(parts, sep), sep) == parts
  {
    if |parts| == 1 {
      SplitNoSep(parts[0], sep);
    } else {
      SplitJoin(parts[1..], sep);
      SplitPrefix(parts[0], Join(parts[1..], sep), sep);
      assert [parts[0]] + parts[1..] == parts;
    }
  }

  lemma {:induction false} SplitNoSep(s: string, sep: char)
    requires sep !in s
    ensures Split(s, sep) == [s]
  {
    if |s| > 0 {
      SplitNoSep(s[1..], sep);
      assert [s[0]] + s[1..] == s;
    }
  }

  lemma {:induction false} SplitPrefix(p: string, rest: string, sep: char)
    requires sep !in p
    ensures Split(p + [sep] + rest, sep) == [p] + Split(rest, sep)
  {
    var s := p + [sep] + rest;
    if |p| == 0 {
      assert s[1..] == rest;
    } else {
      assert s[1..] == p[1..] + [sep] + rest;
      SplitPrefix(p[1..], rest, sep);
      assert [p[0]] + p[1..] == p;
    }
  }
}

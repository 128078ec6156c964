/**
 * formatHTML: a pretty-printer for an HTML string. It removes whitespace between a `>`
 * and the next `<`, trims, splits the text into tag and text tokens, and then walks the
 * tokens with an indentation counter: block-level opening tags go on a new line at the
 * current depth and open a level, block-level closing tags close one (never below 0) and
 * go on a new line after another block closing tag; everything else is appended as is.
 *
 * The regular expressions of the source are modelled as the classifiers below.
 */
module HtmlFormat {
  import opened Wrappers

  // ---------------------------------------------------------------------------
  // Characters and strings

  /** The characters of JavaScript's `\s` class, which are also the ones `trim()` removes. */
  predicate IsWhite(c: char) {
    || c == ' ' || c == '\t' || c == '\n' || c == '\r' || c == '\U{B}' || c == '\U{C}'
    || c == '\U{A0}' || c == '\U{1680}' || ('\U{2000}' <= c <= '\U{200A}')
    || c == '\U{2028}' || c == '\U{2029}' || c == '\U{202F}' || c == '\U{205F}'
    || c == '\U{3000}' || c == '\U{FEFF}'
  }

  predicate AllWhite(s: string) {
    forall i :: 0 <= i < |s| ==> IsWhite(s[i])
  }

  /** The string with every whitespace character deleted. */
  function NonWhite(s: string): string {
    if |s| == 0 then "" else (if IsWhite(s[0]) then "" else [s[0]]) + NonWhite(s[1..])
  }

  lemma {:induction false} NonWhiteAppend(a: string, b: string)
    ensures NonWhite(a + b) == NonWhite(a) + NonWhite(b)
  {
    if |a| > 0 {
      var h := if IsWhite(a[0]) then "" else [a[0]];
      assert (a + b)[1..] == a[1..] + b;
      NonWhiteAppend(a[1..], b);
      calc {
        NonWhite(a + b);
        h + NonWhite(a[1..] + b);
        h + (NonWhite(a[1..]) + NonWhite(b));
        (h + NonWhite(a[1..])) + NonWhite(b);
      }
    } else {
      assert a + b == b;
    }
  }

  lemma {:induction false} NonWhiteOfWhite(s: string)
    requires AllWhite(s)
    ensures NonWhite(s) == ""
  {
    if |s| > 0 {
      NonWhiteOfWhite(s[1..]);
    }
  }

  /** `/>$/`: the token ends with `>`. */
  predicate EndsWithGt(s: string) {
    |s| > 0 && s[|s| - 1] == '>'
  }

  /** ASCII lower case, as the case-insensitive regular expressions compare letters. */
  function LowerChar(c: char): char {
    if 'A' <= c <= 'Z' then (c as int + 32) as char else c
  }

  predicate IsAlnum(c: char) {
    ('a' <= c <= 'z') || ('A' <= c <= 'Z') || ('0' <= c <= '9')
  }

  /** `"  ".repeat(n)`: n indentation units of two spaces. */
  function Tab(n: nat): (r: string)
    ensures |r| == 2 * n
  {
    if n == 0 then "" else "  " + Tab(n - 1)
  }

  /** The indentation is spaces only. */
  lemma {:induction false} TabSpaces(n: nat)
    ensures forall i :: 0 <= i < |Tab(n)| ==> Tab(n)[i] == ' '
  {
    if n > 0 {
      TabSpaces(n - 1);
      assert Tab(n) == "  " + Tab(n - 1);
    }
  }

  // ---------------------------------------------------------------------------
  // Step 1: /> \s+ </g replaced by "><", then trim()

  /** Length of the whitespace run at the start of s. */
  function LeadingWhite(s: string): (n: nat)
    ensures n <= |s|
  {
    if |s| == 0 || !IsWhite(s[0]) then 0 else 1 + LeadingWhite(s[1..])
  }

  /** The run is the longest whitespace prefix: all of it is whitespace, the next character is not. */
  lemma {:induction false} LeadingWhiteRun(s: string)
    ensures AllWhite(s[..LeadingWhite(s)])
    ensures LeadingWhite(s) < |s| ==> !IsWhite(s[LeadingWhite(s)])
    decreases |s|
  {
    if |s| > 0 && IsWhite(s[0]) {
      LeadingWhiteRun(s[1..]);
      var n := LeadingWhite(s[1..]);
      assert s[..1 + n] == [s[0]] + s[1..][..n];
    }
  }

  /** A match of `>\s+<` starts at the front of s. */
  predicate GapAhead(s: string) {
    var w := if |s| == 0 then 0 else LeadingWhite(s[1..]);
    |s| > 0 && s[0] == '>' && w > 0 && 1 + w < |s| && s[1 + w] == '<'
  }

  /** `s.replace(/>\s+</g, "><")`, scanning left to right over non-overlapping matches. */
  function Clean(s: string): string
    decreases |s|
  {
    if |s| == 0 then ""
    else if GapAhead(s) then "><" + Clean(s[2 + LeadingWhite(s[1..])..])
    else [s[0]] + Clean(s[1..])
  }

  /** A non-empty string keeps its first character in front. */
  lemma CleanHead(s: string)
    ensures |s| == 0 ==> Clean(s) == ""
    ensures |s| > 0 ==> |Clean(s)| > 0 && Clean(s)[0] == s[0]
  {
  }

  /** Where no match starts, the first character is copied. */
  lemma CleanStep(s: string)
    requires |s| > 0 && !GapAhead(s)
    ensures Clean(s) == [s[0]] + Clean(s[1..])
  {
  }

  /** Where a match starts, it becomes `><`. */
  lemma CleanGap(s: string, w: nat)
    requires GapAhead(s) && w == LeadingWhite(s[1..])
    ensures Clean(s) == "><" + Clean(s[2 + w..])
  {
  }

  /** The first n characters of s are its first one followed by n - 1 of s[1..]. */
  lemma DropFirst(s: string, n: nat)
    requires 0 < n <= |s|
    ensures s[1..][n - 1..] == s[n..] && s[..n] == [s[0]] + s[1..][..n - 1]
  {
  }

  /** A whitespace run cannot start a match, so it passes through unchanged. */
  lemma {:induction false} CleanWhite(s: string, n: nat)
    requires n <= |s|
    requires forall m :: 0 <= m < n ==> IsWhite(s[m])
    ensures Clean(s) == s[..n] + Clean(s[n..])
    decreases n
  {
    if n > 0 {
      calc {
        Clean(s);
      == { CleanStep(s); }
        [s[0]] + Clean(s[1..]);
      == { CleanWhite(s[1..], n - 1); }
        [s[0]] + (s[1..][..n - 1] + Clean(s[1..][n - 1..]));
      == { DropFirst(s, n); }
        ([s[0]] + s[1..][..n - 1]) + Clean(s[n..]);
      == { DropFirst(s, n); }
        s[..n] + Clean(s[n..]);
      }
    } else {
      assert s[..0] + Clean(s[0..]) == Clean(s);
    }
  }

  /** A whitespace run followed by a non-white character (or nothing) is the leading run. */
  lemma {:induction false} LeadingWhiteAppend(a: string, b: string)
    requires AllWhite(a)
    requires |b| == 0 || !IsWhite(b[0])
    ensures LeadingWhite(a + b) == |a|
    decreases |a|
  {
    if |a| > 0 {
      assert (a + b)[1..] == a[1..] + b;
      LeadingWhiteAppend(a[1..], b);
    } else {
      assert a + b == b;
    }
  }

  /** After cleaning, no match of `>\s+<` is left anywhere. */
  lemma {:induction false} CleanNoGap(s: string)
    ensures forall i :: 0 <= i < |Clean(s)| ==> !GapAhead(Clean(s)[i..])
    decreases |s|
  {
    if |s| > 0 {
      var r := Clean(s);
      if GapAhead(s) {
        var rest := Clean(s[2 + LeadingWhite(s[1..])..]);
        CleanNoGap(s[2 + LeadingWhite(s[1..])..]);
        assert r == "><" + rest;
        forall i | 0 <= i < |r| ensures !GapAhead(r[i..]) {
          if i >= 2 {
            assert r[i..] == rest[i - 2..];
          } else {
            assert r[1..][0] == '<';
          }
        }
      } else {
        var t := s[1..];
        var rest := Clean(t);
        CleanNoGap(t);
        assert r == [s[0]] + rest;
        forall i | 0 < i < |r| ensures !GapAhead(r[i..]) {
          assert r[i..] == rest[i - 1..];
        }
        assert r[0..] == r;
        if s[0] == '>' {
          var w := LeadingWhite(t);
          LeadingWhiteRun(t);
          forall m | 0 <= m < w ensures IsWhite(t[m]) {
            assert t[m] == t[..w][m];
          }
          CleanWhite(t, w);
          CleanHead(t[w..]);
          LeadingWhiteAppend(t[..w], Clean(t[w..]));
          assert r[1..] == rest;
        }
      }
    }
  }

  lemma NonWhiteCons(c: char, s: string)
    ensures NonWhite([c] + s) == (if IsWhite(c) then "" else [c]) + NonWhite(s)
  {
    assert ([c] + s)[1..] == s;
  }

  /** A string in which no match starts is left as it is. */
  lemma {:induction false} CleanGapFree(s: string)
    requires forall i :: 0 <= i < |s| ==> !GapAhead(s[i..])
    ensures Clean(s) == s
    decreases |s|
  {
    if |s| > 0 {
      assert s[0..] == s;
      forall i | 0 <= i < |s[1..]| ensures !GapAhead(s[1..][i..]) {
        assert s[1..][i..] == s[i + 1..];
      }
      CleanGapFree(s[1..]);
    }
  }

  /** Cleaning twice is cleaning once. */
  lemma CleanIdempotent(s: string)
    ensures Clean(Clean(s)) == Clean(s)
  {
    CleanNoGap(s);
    CleanGapFree(Clean(s));
  }

  /** A whitespace run ending in a non-white character is not lengthened by what follows. */
  lemma {:induction false} LeadingWhiteExtend(p: string, b: string)
    requires |p| > 0 && !IsWhite(p[|p| - 1])
    ensures LeadingWhite(p + b) == LeadingWhite(p) < |p|
    decreases |p|
  {
    if IsWhite(p[0]) {
      assert (p + b)[1..] == p[1..] + b;
      LeadingWhiteExtend(p[1..], b);
    }
  }

  /**
   * A non-white character other than `>` ends any match it takes part in, so the scan
   * starts afresh after it.
   */
  lemma {:induction false} CleanSplit(a: string, c: char, b: string)
    requires !IsWhite(c) && c != '>'
    ensures Clean(a + [c] + b) == Clean(a + [c]) + Clean(b)
    decreases |a| + 1, 2
  {
    if |a| == 0 {
      var s, p := a + [c] + b, a + [c];
      calc {
        Clean(s);
      == { assert s == [c] + b; CleanStep(s); assert s[1..] == b; }
        [c] + Clean(b);
      == { assert p == [c]; CleanStep(p); assert p[1..] == ""; }
        Clean(p) + Clean(b);
      }
    } else if GapAhead(a + [c]) {
      CleanSplitGap(a, c, b);
    } else {
      CleanSplitCopy(a, c, b);
    }
  }

  /** Dropping a prefix of a from a + [c] + b and from a + [c]. */
  lemma DropConcat(a: string, c: char, b: string, k: nat)
    requires k <= |a|
    ensures (a + [c] + b)[k..] == a[k..] + [c] + b && (a + [c])[k..] == a[k..] + [c]
  {
  }

  /** The front of a + [c] + b is a match exactly when the front of a + [c] is, with the same run. */
  lemma SplitFront(a: string, c: char, b: string)
    requires !IsWhite(c) && |a| > 0
    ensures var s, p := a + [c] + b, a + [c];
      && LeadingWhite(s[1..]) == LeadingWhite(p[1..]) < |a|
      && (GapAhead(s) <==> GapAhead(p))
  {
    var s, p := a + [c] + b, a + [c];
    assert s[1..] == p[1..] + b;
    LeadingWhiteExtend(p[1..], b);
    var w := LeadingWhite(p[1..]);
    assert s[0] == p[0] && s[1 + w] == p[1 + w];
  }

  lemma {:induction false} CleanSplitGap(a: string, c: char, b: string)
    requires !IsWhite(c) && c != '>' && |a| > 0 && GapAhead(a + [c])
    ensures Clean(a + [c] + b) == Clean(a + [c]) + Clean(b)
    decreases |a| + 1, 1
  {
    var w := LeadingWhite((a + [c])[1..]);
    assert GapAhead(a + [c] + b) && w == LeadingWhite((a + [c] + b)[1..]) && 1 + w <= |a| by {
      SplitFront(a, c, b);
    }
    if 1 + w < |a| {
      DropConcat(a, c, b, 2 + w);
      GapInsideSplit(a + [c] + b, a + [c], a[2 + w..], c, b, w);
    } else {
      GapEndsAtSplit(a, c, b, w);
    }
  }

  /** A match that ends inside a, leaving a' of it: the scan resumes inside a. */
  lemma {:induction false} GapInsideSplit(s: string, p: string, a': string, c: char, b: string, w: nat)
    requires !IsWhite(c) && c != '>'
    requires GapAhead(s) && GapAhead(p) && w == LeadingWhite(s[1..]) == LeadingWhite(p[1..])
    requires s[2 + w..] == a' + [c] + b && p[2 + w..] == a' + [c]
    ensures Clean(s) == Clean(p) + Clean(b)
    decreases |p|, 0
  {
    calc {
      Clean(s);
    == { CleanGap(s, w); }
      "><" + Clean(a' + [c] + b);
    == { CleanSplit(a', c, b); }
      "><" + (Clean(a' + [c]) + Clean(b));
    == { CleanGap(p, w); }
      Clean(p) + Clean(b);
    }
  }

  /** A match that ends with c itself: the scan resumes with b. */
  lemma GapEndsAtSplit(a: string, c: char, b: string, w: nat)
    requires |a| > 0 && GapAhead(a + [c]) && GapAhead(a + [c] + b)
    requires w == LeadingWhite((a + [c])[1..]) == LeadingWhite((a + [c] + b)[1..]) && 1 + w == |a|
    ensures Clean(a + [c] + b) == Clean(a + [c]) + Clean(b)
  {
    var s, p := a + [c] + b, a + [c];
    calc {
      Clean(s);
    == { CleanGap(s, w); assert s[2 + w..] == b; }
      "><" + Clean(b);
    == { CleanGap(p, w); assert p[2 + w..] == ""; }
      Clean(p) + Clean(b);
    }
  }

  lemma {:induction false} CleanSplitCopy(a: string, c: char, b: string)
    requires !IsWhite(c) && c != '>' && |a| > 0 && !GapAhead(a + [c])
    ensures Clean(a + [c] + b) == Clean(a + [c]) + Clean(b)
    decreases |a| + 1, 1
  {
    var s, p := a + [c] + b, a + [c];
    assert !GapAhead(s) by { SplitFront(a, c, b); }
    calc {
      Clean(s);
    == { CleanStep(s); DropConcat(a, c, b, 1); }
      [s[0]] + Clean(a[1..] + [c] + b);
    == { CleanSplit(a[1..], c, b); }
      [s[0]] + (Clean(a[1..] + [c]) + Clean(b));
    == { CleanStep(p); DropConcat(a, c, b, 1); }
      Clean(p) + Clean(b);
    }
  }

  /** Text without `>` cannot start a match, so it is copied unchanged, whitespace included. */
  lemma {:induction false} CleanNoGtPrefix(u: string, v: string)
    requires forall i :: 0 <= i < |u| ==> u[i] != '>'
    ensures Clean(u + v) == u + Clean(v)
    decreases |u|
  {
    if |u| > 0 {
      CleanStep(u + v);
      assert (u + v)[1..] == u[1..] + v;
      CleanNoGtPrefix(u[1..], v);
    } else {
      assert u + v == v;
    }
  }

  /**
   * Whitespace outside the matches survives: after a non-white character other than `>`
   * (the `<` opening a tag, a letter of text), everything up to the next `>` is kept as it
   * is, so the spaces between a tag's attributes and inside text stay.
   */
  lemma CleanKeepsRun(a: string, c: char, u: string, b: string)
    requires !IsWhite(c) && c != '>'
    requires forall i :: 0 <= i < |u| ==> u[i] != '>'
    ensures Clean(a + [c] + u + b) == Clean(a + [c]) + u + Clean(b)
  {
    assert a + [c] + u + b == a + [c] + (u + b);
    CleanSplit(a, c, u + b);
    CleanNoGtPrefix(u, b);
  }

  /** Cleaning deletes whitespace and nothing else. */
  lemma {:induction false} CleanKeepsNonWhite(s: string)
    ensures NonWhite(Clean(s)) == NonWhite(s)
    decreases |s|
  {
    if |s| > 0 {
      var w := LeadingWhite(s[1..]);
      if GapAhead(s) {
        CleanKeepsNonWhite(s[2 + w..]);
        LeadingWhiteRun(s[1..]);
        GapSplit(s, w);
        NonWhiteBrackets(Clean(s[2 + w..]));
      } else {
        CleanKeepsNonWhite(s[1..]);
        NonWhiteCons(s[0], Clean(s[1..]));
        NonWhiteHead(s);
      }
    }
  }

  lemma NonWhiteHead(s: string)
    requires |s| > 0
    ensures NonWhite(s) == NonWhite([s[0]] + s[1..])
  {
    assert s == [s[0]] + s[1..];
  }

  /** A string that opens with `>`, a whitespace run and `<` keeps only the two brackets of it. */
  lemma GapSplit(s: string, w: nat)
    requires 1 + w < |s| && s[0] == '>' && s[1 + w] == '<'
    requires AllWhite(s[1..][..w])
    ensures NonWhite(s) == "><" + NonWhite(s[2 + w..])
  {
    calc {
      NonWhite(s);
    == { assert s[0..] == s; NonWhiteAt(s, 0); }
      [s[0]] + NonWhite(s[1..]);
    == { WhiteRunAt(s, w); NonWhiteSkip(s, 1, 1 + w); }
      [s[0]] + NonWhite(s[1 + w..]);
    == { NonWhiteAt(s, 1 + w); }
      [s[0]] + ([s[1 + w]] + NonWhite(s[2 + w..]));
    ==
      "><" + NonWhite(s[2 + w..]);
    }
  }

  lemma WhiteRunAt(s: string, w: nat)
    requires 1 + w <= |s| && AllWhite(s[1..][..w])
    ensures forall m :: 1 <= m < 1 + w ==> IsWhite(s[m])
  {
    forall m | 1 <= m < 1 + w ensures IsWhite(s[m]) {
      assert s[m] == s[1..][..w][m - 1];
    }
  }

  /** A non-white character at i is kept in front of the rest. */
  lemma NonWhiteAt(s: string, i: nat)
    requires i < |s| && !IsWhite(s[i])
    ensures NonWhite(s[i..]) == [s[i]] + NonWhite(s[i + 1..])
  {
    assert s[i..][1..] == s[i + 1..];
  }

  /** A whitespace run from i to j is dropped. */
  lemma {:induction false} NonWhiteSkip(s: string, i: nat, j: nat)
    requires i <= j <= |s|
    requires forall m :: i <= m < j ==> IsWhite(s[m])
    ensures NonWhite(s[i..]) == NonWhite(s[j..])
    decreases j - i
  {
    if i < j {
      NonWhiteSkip(s, i + 1, j);
      assert s[i..][1..] == s[i + 1..];
    }
  }

  lemma NonWhiteBrackets(c: string)
    ensures NonWhite("><" + c) == "><" + NonWhite(c)
  {
    assert "><" + c == ['>'] + (['<'] + c);
    NonWhiteCons('>', ['<'] + c);
    NonWhiteCons('<', c);
  }

  function TrimStart(s: string): (r: string)
    ensures |r| <= |s| && r == s[|s| - |r|..] && AllWhite(s[..|s| - |r|])
    ensures |r| > 0 ==> !IsWhite(r[0])
  {
    if |s| > 0 && IsWhite(s[0]) then TrimStart(s[1..]) else s
  }

  function TrimEnd(s: string): (r: string)
    ensures |r| <= |s| && r == s[..|r|] && AllWhite(s[|r|..])
    ensures |r| > 0 ==> !IsWhite(r[|r| - 1])
  {
    if |s| > 0 && IsWhite(s[|s| - 1]) then TrimEnd(s[..|s| - 1]) else s
  }

  /** `trim()`: whitespace removed from both ends. */
  function Trim(s: string): (r: string)
    ensures |r| > 0 ==> !IsWhite(r[0]) && !IsWhite(r[|r| - 1])
  {
    TrimEnd(TrimStart(s))
  }

  /** Trimming deletes whitespace and nothing else. */
  lemma NonWhiteTrim(s: string)
    ensures NonWhite(Trim(s)) == NonWhite(s)
  {
    var a := TrimStart(s);
    NonWhiteWhiteBefore(s, |s| - |a|);
    var r := TrimEnd(a);
    NonWhiteWhiteAfter(a, |r|);
  }

  /** Whitespace in front of s[k..] does not change its non-white text. */
  lemma NonWhiteWhiteBefore(s: string, k: nat)
    requires k <= |s| && AllWhite(s[..k])
    ensures NonWhite(s) == NonWhite(s[k..])
  {
    assert s == s[..k] + s[k..];
    NonWhiteAppend(s[..k], s[k..]);
    NonWhiteOfWhite(s[..k]);
  }

  /** Whitespace behind s[..k] does not change its non-white text. */
  lemma NonWhiteWhiteAfter(s: string, k: nat)
    requires k <= |s| && AllWhite(s[k..])
    ensures NonWhite(s) == NonWhite(s[..k])
  {
    assert s == s[..k] + s[k..];
    NonWhiteAppend(s[..k], s[k..]);
    NonWhiteOfWhite(s[k..]);
  }

  /** A string that starts and ends with a non-whitespace character is its own trim. */
  lemma TrimOfTrimmed(s: string)
    requires |s| > 0 ==> !IsWhite(s[0]) && !IsWhite(s[|s| - 1])
    ensures Trim(s) == s
  {
  }

  // ---------------------------------------------------------------------------
  // Step 2: split(/(<[^>]+>)/g).filter(Boolean)

  /** Position of the first '>' at or after `from`, |s| when there is none. */
  function FindGt(s: string, from: nat): (j: nat)
    requires from <= |s|
    ensures from <= j <= |s|
    ensures j < |s| ==> s[j] == '>'
    ensures forall m :: from <= m < j ==> s[m] != '>'
    decreases |s| - from
  {
    if from == |s| || s[from] == '>' then from else FindGt(s, from + 1)
  }

  /**
   * t[p..q] matches `<[^>]+>`: a `<`, at least one character other than `>`, then `>`.
   */
  predicate TagSpan(t: string, p: int, q: int) {
    && 0 <= p && p + 3 <= q <= |t| && t[p] == '<' && t[q - 1] == '>'
    && forall m :: p < m < q - 1 ==> t[m] != '>'
  }

  /** A token of the form `<...>` with at least one character inside and no `>` inside. */
  predicate IsTag(t: string) {
    TagSpan(t, 0, |t|)
  }

  /** No part of t matches `<[^>]+>`. */
  predicate TagFree(t: string) {
    forall p, q :: 0 <= p < q <= |t| ==> !TagSpan(t, p, q)
  }

  /** Length of the match of `<[^>]+>` that starts at position i, 0 when none does. */
  function TagLenAt(s: string, i: nat): nat
    requires i < |s|
  {
    if s[i] != '<' || i + 1 == |s| then 0
    else
      var j := FindGt(s, i + 1);
      if j < |s| && j >= i + 2 then j - i + 1 else 0
  }

  /** A match found at i lies inside s and has the form `<[^>]+>`. */
  lemma TagFound(s: string, i: nat)
    requires i < |s| && TagLenAt(s, i) > 0
    ensures TagSpan(s, i, i + TagLenAt(s, i))
  {
  }

  /** Wherever a match of `<[^>]+>` starts, the scan finds it, with its full length. */
  lemma TagMatchesAt(s: string, a: nat, b: nat)
    requires TagSpan(s, a, b)
    ensures TagLenAt(s, a) == b - a
  {
    assert FindGt(s, a + 1) == b - 1;
  }

  /** A match inside s[a..b] is a match in s, shifted by a. */
  lemma SpanShift(s: string, a: nat, b: nat, p: int, q: int)
    requires a <= b <= |s| && TagSpan(s[a..b], p, q)
    ensures TagSpan(s, a + p, a + q)
  {
    var t := s[a..b];
    assert s[a + p] == t[p] && s[a + q - 1] == t[q - 1];
    forall m | a + p < m < a + q - 1 ensures s[m] != '>' {
      assert s[m] == t[m - a];
    }
  }

  /** A match in s, cut out of s, is a tag. */
  lemma SpanIsTag(s: string, a: nat, b: nat)
    requires TagSpan(s, a, b)
    ensures IsTag(s[a..b])
  {
    var t := s[a..b];
    assert t[0] == s[a] && t[|t| - 1] == s[b - 1];
    forall m | 0 < m < |t| - 1 ensures t[m] != '>' {
      assert t[m] == s[a + m];
    }
  }

  /** A stretch of s in which no match of the tag pattern starts contains no tag. */
  lemma TagFreeSlice(s: string, start: nat, i: nat)
    requires start <= i <= |s|
    requires forall m :: start <= m < i ==> TagLenAt(s, m) == 0
    ensures TagFree(s[start..i])
  {
    forall p, q | 0 <= p < q <= i - start && TagSpan(s[start..i], p, q) ensures false {
      SpanShift(s, start, i, p, q);
      TagMatchesAt(s, start + p, start + q);
    }
  }

  /** Concatenation of a sequence of strings. */
  function Flatten(ts: seq<string>): string {
    if |ts| == 0 then "" else ts[0] + Flatten(ts[1..])
  }

  lemma {:induction false} FlattenSnoc(ts: seq<string>, k: nat)
    requires k < |ts|
    ensures Flatten(ts[..k + 1]) == Flatten(ts[..k]) + ts[k]
  {
    if k > 0 {
      assert ts[..k + 1][1..] == ts[1..][..k];
      assert ts[..k][1..] == ts[1..][..k - 1];
      FlattenSnoc(ts[1..], k - 1);
    } else {
      assert ts[..1][1..] == [];
    }
  }

  /**
   * The tokens of s[start..], where the text token under construction began at `start`
   * and no tag starts in s[start..i].
   */
  function SplitFrom(s: string, start: nat, i: nat): seq<string>
    requires start <= i <= |s|
    decreases |s| - i
  {
    if i == |s| then Text(s, start, i)
    else
      var n := TagLenAt(s, i);
      if n == 0 then SplitFrom(s, start, i + 1)
      else Text(s, start, i) + [s[i..i + n]] + SplitFrom(s, i + n, i + n)
  }

  /** Where no tag starts, the text token under construction grows by one character. */
  lemma SplitSkip(s: string, start: nat, i: nat)
    requires start <= i < |s| && TagLenAt(s, i) == 0
    ensures SplitFrom(s, start, i) == SplitFrom(s, start, i + 1)
  {
  }

  /** Where a tag starts, the text so far and the tag are emitted before the rest. */
  lemma SplitTag(s: string, start: nat, i: nat)
    requires start <= i < |s| && TagLenAt(s, i) > 0
    ensures var n := TagLenAt(s, i);
      SplitFrom(s, start, i) == Text(s, start, i) + [s[i..i + n]] + SplitFrom(s, i + n, i + n)
  {
  }

  /** The tokens of SplitFrom concatenate back to s[start..]. */
  lemma {:induction false} SplitFromFlatten(s: string, start: nat, i: nat)
    requires start <= i <= |s|
    ensures Flatten(SplitFrom(s, start, i)) == s[start..]
    decreases |s| - i, 1
  {
    if i == |s| {
      TextFlatten(s, start, i);
      assert s[start..i] == s[start..];
    } else if TagLenAt(s, i) == 0 {
      SplitFromFlatten(s, start, i + 1);
      SplitSkip(s, start, i);
    } else {
      TagFlatten(s, start, i, TagLenAt(s, i));
    }
  }

  /** The text so far, the tag at i and the tokens after it concatenate back to s[start..]. */
  lemma {:induction false} TagFlatten(s: string, start: nat, i: nat, n: nat)
    requires start <= i < |s| && n == TagLenAt(s, i) > 0
    ensures Flatten(SplitFrom(s, start, i)) == s[start..]
    decreases |s| - i, 0
  {
    SplitFromFlatten(s, i + n, i + n);
    SplitTag(s, start, i);
    FlattenAtTag(s, start, i, n, SplitFrom(s, i + n, i + n), SplitFrom(s, start, i));
  }

  /** Each token of SplitFrom is non-empty and either a tag or tag-free text. */
  lemma {:induction false} SplitFromWell(s: string, start: nat, i: nat)
    requires start <= i <= |s|
    requires forall m :: start <= m < i ==> TagLenAt(s, m) == 0
    ensures WellSplit(SplitFrom(s, start, i))
    decreases |s| - i, 1
  {
    if i == |s| {
      TextWell(s, start, i);
    } else if TagLenAt(s, i) == 0 {
      SplitFromWell(s, start, i + 1);
      SplitSkip(s, start, i);
    } else {
      TagWell(s, start, i, TagLenAt(s, i));
    }
  }

  /** The text so far, the tag at i and the tokens after it are well split. */
  lemma {:induction false} TagWell(s: string, start: nat, i: nat, n: nat)
    requires start <= i < |s| && n == TagLenAt(s, i) > 0
    requires forall m :: start <= m < i ==> TagLenAt(s, m) == 0
    ensures WellSplit(SplitFrom(s, start, i))
    decreases |s| - i, 0
  {
    SplitFromWell(s, i + n, i + n);
    SplitTag(s, start, i);
    TextWell(s, start, i);
    TagFound(s, i);
    SpanIsTag(s, i, i + n);
    WellSplitAround(Text(s, start, i), s[i..i + n], SplitFrom(s, i + n, i + n), SplitFrom(s, start, i));
  }

  lemma FlattenAtTag(s: string, start: nat, i: nat, n: nat, rest: seq<string>, r: seq<string>)
    requires start <= i <= i + n <= |s| && Flatten(rest) == s[i + n..]
    requires r == Text(s, start, i) + [s[i..i + n]] + rest
    ensures Flatten(r) == s[start..]
  {
    TextFlatten(s, start, i);
    FlattenAroundTag(Text(s, start, i), s[i..i + n], rest);
    SliceThree(s, start, i, i + n);
  }

  /** The text token s[start..i], when it is not empty. */
  function Text(s: string, start: nat, i: nat): seq<string>
    requires start <= i <= |s|
  {
    if start < i then [s[start..i]] else []
  }

  lemma TextFlatten(s: string, start: nat, i: nat)
    requires start <= i <= |s|
    ensures Flatten(Text(s, start, i)) == s[start..i] && |Text(s, start, i)| <= 1
  {
    FlattenOne(s[start..i]);
  }

  lemma TextWell(s: string, start: nat, i: nat)
    requires start <= i <= |s|
    requires forall m :: start <= m < i ==> TagLenAt(s, m) == 0
    ensures WellSplit(Text(s, start, i))
  {
    TagFreeSlice(s, start, i);
  }

  /** Every token is non-empty and is a tag or tag-free text. */
  predicate WellSplit(ts: seq<string>) {
    forall k :: 0 <= k < |ts| ==> |ts[k]| > 0 && (IsTag(ts[k]) || TagFree(ts[k]))
  }

  lemma WellSplitAround(text: seq<string>, tag: string, rest: seq<string>, ts: seq<string>)
    requires WellSplit(text) && IsTag(tag) && WellSplit(rest)
    requires ts == text + [tag] + rest
    ensures WellSplit(ts)
  {
    forall k | 0 <= k < |ts| ensures |ts[k]| > 0 && (IsTag(ts[k]) || TagFree(ts[k])) {
      if k < |text| {
        assert ts[k] == text[k];
      } else if k > |text| {
        assert ts[k] == rest[k - |text| - 1];
      }
    }
  }

  lemma SliceThree(s: string, a: nat, b: nat, c: nat)
    requires a <= b <= c <= |s|
    ensures s[a..] == s[a..b] + s[b..c] + s[c..]
  {
  }

  lemma FlattenOne(t: string)
    ensures Flatten([t]) == t
  {
    assert [t][1..] == [];
  }

  /** The tokens around a tag: an optional text token, the tag, then the rest. */
  lemma FlattenAroundTag(text: seq<string>, tag: string, rest: seq<string>)
    requires |text| <= 1
    ensures Flatten(text + [tag] + rest) == Flatten(text) + tag + Flatten(rest)
  {
    assert ([tag] + rest)[1..] == rest;
    if |text| == 1 {
      assert (text + [tag] + rest)[1..] == [tag] + rest;
      assert text[1..] == [];
    } else {
      assert text + [tag] + rest == [tag] + rest;
    }
  }

  /**
   * The tokens of a string: they concatenate back to it, none is empty, and each is
   * either a tag `<...>` or text in which no tag occurs.
   */
  function Tokenize(s: string): (r: seq<string>)
    ensures Flatten(r) == s
    ensures forall k :: 0 <= k < |r| ==> |r[k]| > 0 && (IsTag(r[k]) || TagFree(r[k]))
  {
    SplitFromFlatten(s, 0, 0);
    SplitFromWell(s, 0, 0);
    SplitFrom(s, 0, 0)
  }

  // ---------------------------------------------------------------------------
  // Token classes

  const BlockTags: set<string> := {
    "address", "article", "aside", "blockquote", "canvas", "dd", "div", "dl", "dt",
    "fieldset", "figcaption", "figure", "footer", "form", "h1", "h2", "h3", "h4", "h5",
    "h6", "header", "hr", "li", "main", "nav", "noscript", "ol", "p", "pre", "section",
    "table", "tfoot", "ul", "video", "body", "html", "head"
  }

  /** The run of ASCII letters and digits of t from position i, in lower case. */
  function NameFrom(t: string, i: nat): string
    decreases |t| - i
  {
    if i < |t| && IsAlnum(t[i]) then [LowerChar(t[i])] + NameFrom(t, i + 1) else ""
  }

  /**
   * The scan takes the longest run of letters and digits, as `[a-z0-9]+` with the `i`
   * flag matches, lower-casing each of them.
   */
  lemma {:induction false} NameFromRun(t: string, i: nat)
    requires i <= |t|
    ensures i + |NameFrom(t, i)| <= |t|
    ensures forall k :: i <= k < i + |NameFrom(t, i)| ==>
      IsAlnum(t[k]) && NameFrom(t, i)[k - i] == LowerChar(t[k])
    ensures i + |NameFrom(t, i)| < |t| ==> !IsAlnum(t[i + |NameFrom(t, i)|])
    decreases |t| - i
  {
    if i < |t| && IsAlnum(t[i]) {
      NameFromRun(t, i + 1);
      var n, r := NameFrom(t, i), NameFrom(t, i + 1);
      assert n == [LowerChar(t[i])] + r;
      forall k | i <= k < i + |n|
        ensures IsAlnum(t[k]) && n[k - i] == LowerChar(t[k])
      {
        if k > i {
          assert n[k - i] == r[k - (i + 1)];
        }
      }
    }
  }

  /** The name `^<\/?([a-z0-9]+)/i` captures, in lower case, when the token starts a tag. */
  function TagName(t: string): Option<string> {
    if |t| == 0 || t[0] != '<' then None
    else
      var name := NameFrom(t, if |t| >= 2 && t[1] == '/' then 2 else 1);
      if name == "" then None else Some(name)
  }

  /** isBlock: the token names a block-level element. */
  predicate IsBlock(t: string) {
    TagName(t).Some? && TagName(t).value in BlockTags
  }

  /** `^<\/`: a closing tag. */
  predicate IsClosing(t: string) {
    |t| >= 2 && t[0] == '<' && t[1] == '/'
  }

  /** `^<[^]`: an opening (or self-closing) tag. */
  predicate IsOpening(t: string) {
    |t| >= 2 && t[0] == '<'
  }

  /** From position i on, t starts like p when ASCII case is ignored. */
  predicate PrefixCI(t: string, p: string, i: nat)
    decreases |p| - i
  {
    i >= |p| || (i < |t| && LowerChar(t[i]) == p[i] && PrefixCI(t, p, i + 1))
  }

  /** A case-insensitive `^p` test: t is at least as long as p and agrees with it letter by letter. */
  lemma {:induction false} PrefixCIMeaning(t: string, p: string, i: nat)
    requires i <= |p|
    ensures PrefixCI(t, p, i) <==>
      (i < |p| ==> |p| <= |t|) && forall k :: i <= k < |p| ==> LowerChar(t[k]) == p[k]
    decreases |p| - i
  {
    if i < |p| {
      PrefixCIMeaning(t, p, i + 1);
    }
  }

  /** `\/>$` or, case-insensitively, `^<(br|hr|img|input|meta|link)`. */
  predicate IsSelfClosing(t: string) {
    || (|t| >= 2 && t[|t| - 2] == '/' && t[|t| - 1] == '>')
    || PrefixCI(t, "<br", 0) || PrefixCI(t, "<hr", 0) || PrefixCI(t, "<img", 0)
    || PrefixCI(t, "<input", 0) || PrefixCI(t, "<meta", 0) || PrefixCI(t, "<link", 0)
  }

  predicate IsBlockClose(t: string) {
    IsClosing(t) && IsBlock(t)
  }

  predicate IsBlockOpen(t: string) {
    !IsClosing(t) && IsOpening(t) && IsBlock(t)
  }

  // ---------------------------------------------------------------------------
  // Step 3: the walk over the tokens, as a specification

  /** The indentation counter after one token. */
  function StepIndent(t: string, indent: int): int {
    if IsClosing(t) then (if IsBlock(t) then (if indent - 1 < 0 then 0 else indent - 1) else indent)
    else if IsOpening(t) then (if IsBlock(t) && !IsSelfClosing(t) then indent + 1 else indent)
    else indent
  }

  /** The indentation counter before token k; it never goes below 0. */
  function IndentBefore(parts: seq<string>, k: nat): (r: int)
    requires k <= |parts|
    ensures r >= 0
  {
    if k == 0 then 0 else StepIndent(parts[k - 1], IndentBefore(parts, k - 1))
  }

  /** What the walk writes in front of token k. */
  function Sep(parts: seq<string>, k: nat): string
    requires k < |parts|
  {
    var t := parts[k];
    var indent := IndentBefore(parts, k);
    if IsClosing(t) then
      if IsBlock(t) then
        var dedented := if indent - 1 < 0 then 0 else indent - 1;
        if k > 0 && (IsBlock(parts[k - 1]) || EndsWithGt(parts[k - 1])) then
          if IsClosing(parts[k - 1]) && IsBlock(parts[k - 1]) then "\n" + Tab(dedented) else ""
        else ""
      else ""
    else if IsOpening(t) then
      if IsBlock(t) then (if k > 0 then "\n" else "") + Tab(indent) else ""
    else ""
  }

  /** The output after the first k tokens. */
  function LayoutPrefix(parts: seq<string>, k: nat): string
    requires k <= |parts|
  {
    if k == 0 then "" else LayoutPrefix(parts, k - 1) + Sep(parts, k - 1) + parts[k - 1]
  }

  function Layout(parts: seq<string>): string {
    LayoutPrefix(parts, |parts|)
  }

  function Min(x: int, y: int): int { if x < y then x else y }

  /**
   * What precedes a token: only whitespace; a line break exactly before a block opening
   * tag that is not first, and before a block closing tag that follows a block closing
   * tag; after a line break, the indentation of the enclosing level (the lesser of the
   * counter before and after the token); nothing at all before text and inline tags.
   */
  lemma SepShape(parts: seq<string>, k: nat)
    requires k < |parts|
    ensures AllWhite(Sep(parts, k))
    ensures '\n' in Sep(parts, k) <==>
      || (k > 0 && IsBlockOpen(parts[k]))
      || (k > 0 && IsBlockClose(parts[k]) && IsBlockClose(parts[k - 1]))
    ensures '\n' in Sep(parts, k) ==>
      Sep(parts, k) == "\n" + Tab(Min(IndentBefore(parts, k), IndentBefore(parts, k + 1)))
    ensures '\n' !in Sep(parts, k) ==> Sep(parts, k) == ""
    ensures !IsBlock(parts[k]) ==> Sep(parts, k) == "" && IndentBefore(parts, k + 1) == IndentBefore(parts, k)
    ensures k == 0 ==> Sep(parts, k) == ""
  {
    var s := Sep(parts, k);
    var indent := IndentBefore(parts, k);
    assert IndentBefore(parts, k + 1) == StepIndent(parts[k], indent);
    var dedented := if indent - 1 < 0 then 0 else indent - 1;
    TabSpaces(indent);
    TabSpaces(dedented);
    assert '\n' !in Tab(indent) && '\n' !in Tab(dedented);
    if IsBlockOpen(parts[k]) && k > 0 {
      assert s == "\n" + Tab(indent);
      assert s[0] == '\n';
    } else if IsBlockClose(parts[k]) && k > 0 && IsBlockClose(parts[k - 1]) {
      assert s == "\n" + Tab(dedented);
      assert s[0] == '\n';
    }
  }

  /** How the counter moves over one token. */
  lemma IndentChange(parts: seq<string>, k: nat)
    requires k < |parts|
    ensures IsBlockClose(parts[k]) ==>
      IndentBefore(parts, k + 1) == if IndentBefore(parts, k) == 0 then 0 else IndentBefore(parts, k) - 1
    ensures IsBlockOpen(parts[k]) && !IsSelfClosing(parts[k]) ==>
      IndentBefore(parts, k + 1) == IndentBefore(parts, k) + 1
    ensures !IsBlockClose(parts[k]) && !(IsBlockOpen(parts[k]) && !IsSelfClosing(parts[k])) ==>
      IndentBefore(parts, k + 1) == IndentBefore(parts, k)
  {
  }

  lemma SepWhite(parts: seq<string>, k: nat)
    requires k < |parts|
    ensures AllWhite(Sep(parts, k))
  {
    var indent := IndentBefore(parts, k);
    TabSpaces(indent);
    TabSpaces(if indent - 1 < 0 then 0 else indent - 1);
  }

  /** Appending whitespace and a token to two strings with the same non-white text keeps it equal. */
  lemma NonWhiteStep(a: string, sep: string, p: string, flat: string, r: string, f: string)
    requires AllWhite(sep) && NonWhite(a) == NonWhite(flat)
    requires r == a + sep + p && f == flat + p
    ensures NonWhite(r) == NonWhite(f)
  {
    NonWhiteAppend(a + sep, p);
    NonWhiteAppend(a, sep);
    NonWhiteOfWhite(sep);
    NonWhiteAppend(flat, p);
  }

  /** Only whitespace separates the tokens in the layout. */
  lemma {:induction false} LayoutNonWhite(parts: seq<string>, k: nat)
    requires k <= |parts|
    ensures NonWhite(LayoutPrefix(parts, k)) == NonWhite(Flatten(parts[..k]))
  {
    if k > 0 {
      LayoutNonWhite(parts, k - 1);
      SepWhite(parts, k - 1);
      FlattenSnoc(parts, k - 1);
      LayoutPrefixStep(parts, k);
      NonWhiteStep(LayoutPrefix(parts, k - 1), Sep(parts, k - 1), parts[k - 1], Flatten(parts[..k - 1]),
        LayoutPrefix(parts, k), Flatten(parts[..k]));
    } else {
      assert parts[..0] == [];
    }
  }

  lemma LayoutPrefixStep(parts: seq<string>, k: nat)
    requires 0 < k <= |parts|
    ensures LayoutPrefix(parts, k) == LayoutPrefix(parts, k - 1) + Sep(parts, k - 1) + parts[k - 1]
  {
  }

  lemma {:induction false} LayoutPrefixFirst(parts: seq<string>, k: nat)
    requires 0 < k <= |parts| && |parts[0]| > 0
    ensures |LayoutPrefix(parts, k)| > 0 && LayoutPrefix(parts, k)[0] == parts[0][0]
  {
    if k > 1 {
      LayoutPrefixFirst(parts, k - 1);
    } else {
      SepShape(parts, 0);
    }
  }

  lemma {:induction false} FlattenEnds(ts: seq<string>)
    requires |ts| > 0 && forall k :: 0 <= k < |ts| ==> |ts[k]| > 0
    ensures |Flatten(ts)| > 0
    ensures Flatten(ts)[0] == ts[0][0]
    ensures Flatten(ts)[|Flatten(ts)| - 1] == ts[|ts| - 1][|ts[|ts| - 1]| - 1]
  {
    if |ts| > 1 {
      FlattenEnds(ts[1..]);
    }
  }

  /** The layout of the tokens of a trimmed string starts and ends as that string does. */
  lemma LayoutEnds(c: string)
    requires |c| > 0 && !IsWhite(c[0]) && !IsWhite(c[|c| - 1])
    ensures var l := Layout(Tokenize(c)); |l| > 0 && l[0] == c[0] && l[|l| - 1] == c[|c| - 1]
  {
    var parts := Tokenize(c);
    assert |parts| > 0;
    FlattenEnds(parts);
    LayoutPrefixFirst(parts, |parts|);
  }

  /**
   * Regrouping of `+` and dropping an empty separator, proved apart from `WritePart` so
   * that its (large) context does not have to prove them.
   */
  lemma ConcatAssoc(a: string, b: string, c: string)
    ensures a + b + c == a + (b + c)
  {
  }

  lemma ConcatEmpty(a: string, b: string)
    ensures a + "" + b == a + b
  {
  }

  /** The layout of the tokens of a trimmed string keeps its non-white text and its ends. */
  lemma LayoutOfTrimmed(c: string)
    requires |c| > 0 ==> !IsWhite(c[0]) && !IsWhite(c[|c| - 1])
    ensures var l := Layout(Tokenize(c));
      && NonWhite(l) == NonWhite(c)
      && (|l| > 0 ==> !IsWhite(l[0]) && !IsWhite(l[|l| - 1]))
      && Trim(l) == l
  {
    var parts := Tokenize(c);
    assert parts[..|parts|] == parts;
    LayoutNonWhite(parts, |parts|);
    if |c| > 0 {
      LayoutEnds(c);
    } else {
      assert parts == [];
    }
    TrimOfTrimmed(Layout(parts));
  }

  /** The layout of the cleaned input keeps its non-white text and has non-white ends. */
  lemma FormattedProps(html: string)
    ensures var l := Layout(Tokenize(Trim(Clean(html))));
      && NonWhite(l) == NonWhite(html)
      && (|l| > 0 ==> !IsWhite(l[0]) && !IsWhite(l[|l| - 1]))
      && Trim(l) == l
  {
    LayoutOfTrimmed(Trim(Clean(html)));
    NonWhiteTrim(Clean(html));
    CleanKeepsNonWhite(html);
  }

  // ---------------------------------------------------------------------------
  // formatHTML

  /**
   * One step of the walk: what formatHTML appends for token `index`, and the counter
   * after it.
   */
  method WritePart(parts: seq<string>, index: nat, result0: string, indent0: int)
    returns (result: string, indent: int)
    requires index < |parts|
    requires result0 == LayoutPrefix(parts, index) && indent0 == IndentBefore(parts, index)
    requires |result0| > 0 <==> index > 0
    ensures result == LayoutPrefix(parts, index + 1) && indent == IndentBefore(parts, index + 1)
  {
    var part := parts[index];
    result, indent := result0, indent0;
    ghost var sep := Sep(parts, index);
    ghost var next := IndentBefore(parts, index + 1);
    assert LayoutPrefix(parts, index + 1) == result0 + sep + part;
    assert next == StepIndent(part, indent0);
    if IsClosing(part) {
      if IsBlock(part) {
        indent := if indent - 1 < 0 then 0 else indent - 1;
        if index > 0 && (IsBlock(parts[index - 1]) || EndsWithGt(parts[index - 1])) {
          var prev := parts[index - 1];
          if IsClosing(prev) && IsBlock(prev) {
            assert sep == "\n" + Tab(indent);
            ConcatAssoc(result, "\n" + Tab(indent), part);
            result := result + ("\n" + Tab(indent) + part);
          } else {
            assert sep == "";
            ConcatEmpty(result, part);
            result := result + part;
          }
        } else {
          assert sep == "";
          ConcatEmpty(result, part);
          result := result + part;
        }
      } else {
        assert sep == "";
        ConcatEmpty(result, part);
        result := result + part;
      }
    } else if IsOpening(part) {
      if IsBlock(part) {
        assert sep == (if index > 0 then "\n" else "") + Tab(indent);
        if |result| > 0 {
          result := result + "\n";
        }
        ConcatAssoc(result, Tab(indent), part);
        result := result + (Tab(indent) + part);
        if !IsSelfClosing(part) {
          indent := indent + 1;
        }
      } else {
        assert sep == "";
        ConcatEmpty(result, part);
        result := result + part;
      }
    } else {
      assert sep == "";
      ConcatEmpty(result, part);
      result := result + part;
    }
    assert result == result0 + sep + part && indent == next;
  }

  /**
   * formatHTML. The empty input gives "". The output is the layout of the tokens of the
   * cleaned input; it differs from the input only in whitespace, and it neither starts
   * nor ends with whitespace.
   */
  method FormatHtml(html: string) returns (r: string)
    ensures html == "" ==> r == ""
    ensures r == Layout(Tokenize(Trim(Clean(html))))
    ensures NonWhite(r) == NonWhite(html)
    ensures |r| > 0 ==> !IsWhite(r[0]) && !IsWhite(r[|r| - 1])
  {
    if |html| == 0 {
      return "";
    }
    var cleanHtml := Trim(Clean(html));
    var parts := Tokenize(cleanHtml);
    var result := "";
    var indent := 0;
    var index := 0;
    while index < |parts|
      invariant 0 <= index <= |parts|
      invariant result == LayoutPrefix(parts, index)
      invariant indent == IndentBefore(parts, index)
      invariant |result| > 0 <==> index > 0
    {
      result, indent := WritePart(parts, index, result, indent);
      index := index + 1;
    }
    FormattedProps(html);
    r := Trim(result);
  }
}

/** The JavaScript string operations the input handling relies on:
    `String.prototype.split` with a one-character separator,
    `String.prototype.trim` and `Array.prototype.join`. */
module Text {

  // ---------------------------------------------------------------------------
  // split and join
  // ---------------------------------------------------------------------------

  /** `s.split(sep)` for a one-character separator: the maximal pieces between
      occurrences of `sep`; the empty string splits into one empty piece. */
  function Split(s: string, sep: char): (pieces: seq<string>)
    ensures |pieces| >= 1
    decreases |s|
  {
    if s == [] then [[]]
    else
      var rest := Split(s[1..], sep);
      if s[0] == sep then [[]] + rest
      else [[s[0]] + rest[0]] + rest[1..]
  }

  /** `pieces.join(sep)`: the pieces with `sep` between neighbours. */
  function Join(pieces: seq<string>, sep: string): (s: string)
  {
    if |pieces| == 0 then []
    else if |pieces| == 1 then pieces[0]
    else pieces[0] + sep + Join(pieces[1..], sep)
  }

  /** No piece holds the separator. */
  lemma {:induction false} SplitOmitsSeparator(s: string, sep: char)
    ensures forall p :: p in Split(s, sep) ==> sep !in p
    decreases |s|
  {
    if s != [] {
      SplitOmitsSeparator(s[1..], sep);
      var rest := Split(s[1..], sep);
      if s[0] != sep {
        assert rest[0] in rest;
        assert Split(s, sep) == [[s[0]] + rest[0]] + rest[1..];
        forall p | p in rest[1..] ensures p in rest {
          var k :| 0 <= k < |rest[1..]| && rest[1..][k] == p;
          assert rest[k + 1] == p;
        }
      }
    }
  }

  /** Joining the pieces of a split with the separator gives back the string. */
  lemma {:induction false} JoinSplit(s: string, sep: char)
    ensures Join(Split(s, sep), [sep]) == s
    decreases |s|
  {
    if s != [] {
      JoinSplit(s[1..], sep);
      var rest := Split(s[1..], sep);
      if s[0] != sep {
        if |rest| == 1 {
          assert Split(s, sep) == [[s[0]] + rest[0]];
        } else {
          assert Split(s, sep)[1..] == rest[1..];
          assert Join(rest, [sep]) == rest[0] + [sep] + Join(rest[1..], [sep]);
          assert s == [s[0]] + s[1..];
        }
      } else {
        assert Split(s, sep)[1..] == rest;
        assert s == [sep] + s[1..];
      }
    }
  }

  /** A string without the separator is a single piece. */
  lemma {:induction false} SplitNoSeparator(s: string, sep: char)
    requires sep !in s
    ensures Split(s, sep) == [s]
    decreases |s|
  {
    if s != [] {
      assert sep !in s[1..];
      SplitNoSeparator(s[1..], sep);
      assert s == [s[0]] + s[1..];
    }
  }

  /** Splitting distributes over an occurrence of the separator: the pieces of
      `a + [sep] + b` are those of `a` followed by those of `b`. */
  lemma {:induction false} SplitAppend(a: string, sep: char, b: string)
    ensures Split(a + [sep] + b, sep) == Split(a, sep) + Split(b, sep)
    decreases |a|
  {
    if a == [] {
      assert a + [sep] + b == [sep] + b;
      assert ([sep] + b)[1..] == b;
    } else {
      var s := a + [sep] + b;
      assert s[0] == a[0];
      assert s[1..] == a[1..] + [sep] + b;
      SplitAppend(a[1..], sep, b);
    }
  }

  /** Splitting the join of separator-free pieces gives back the pieces. */
  lemma {:induction false} SplitJoin(pieces: seq<string>, sep: char)
    requires |pieces| >= 1
    requires forall i :: 0 <= i < |pieces| ==> sep !in pieces[i]
    ensures Split(Join(pieces, [sep]), sep) == pieces
    decreases |pieces|
  {
    if |pieces| == 1 {
      SplitNoSeparator(pieces[0], sep);
    } else {
      SplitJoin(pieces[1..], sep);
      SplitNoSeparator(pieces[0], sep);
      SplitAppend(pieces[0], sep, Join(pieces[1..], [sep]));
      assert pieces == [pieces[0]] + pieces[1..];
    }
  }

  /** Where piece `k` starts in `Join(pieces, sep)`. */
  function JoinOffset(pieces: seq<string>, sep: string, k: nat): nat
    requires k < |pieces|
  {
    if k == 0 then 0 else |pieces[0]| + |sep| + JoinOffset(pieces[1..], sep, k - 1)
  }

  /** Every piece occurs in the joined string, at its offset. */
  lemma {:induction false} JoinContains(pieces: seq<string>, sep: string, k: nat)
    requires k < |pieces|
    ensures JoinOffset(pieces, sep, k) + |pieces[k]| <= |Join(pieces, sep)|
    ensures Join(pieces, sep)[JoinOffset(pieces, sep, k)..JoinOffset(pieces, sep, k) + |pieces[k]|] == pieces[k]
    decreases |pieces|
  {
    var s := Join(pieces, sep);
    if k == 0 {
      assert s[0..|pieces[0]|] == pieces[0];
    } else {
      JoinContains(pieces[1..], sep, k - 1);
      var rest := Join(pieces[1..], sep);
      var i := JoinOffset(pieces[1..], sep, k - 1);
      var off := |pieces[0]| + |sep|;
      assert s == pieces[0] + sep + rest;
      assert s[off + i..off + i + |pieces[k]|] == rest[i..i + |pieces[k]|];
    }
  }

  // ---------------------------------------------------------------------------
  // trim
  // ---------------------------------------------------------------------------

  /** The characters `trim` removes: ECMAScript WhiteSpace (tab, vertical tab,
      form feed, the byte-order mark and every space separator of Unicode
      category Zs) and LineTerminator (LF, CR, LS, PS). */
  const Whitespace: set<char> := {
    '\t', '\U{000B}', '\U{000C}', '\U{FEFF}',
    ' ', '\U{00A0}', '\U{1680}',
    '\U{2000}', '\U{2001}', '\U{2002}', '\U{2003}', '\U{2004}', '\U{2005}',
    '\U{2006}', '\U{2007}', '\U{2008}', '\U{2009}', '\U{200A}',
    '\U{202F}', '\U{205F}', '\U{3000}',
    '\n', '\r', '\U{2028}', '\U{2029}'
  }

  predicate IsWhitespace(c: char)
  {
    c in Whitespace
  }

  /** Every character of `s` from index `lo` up to `hi` is whitespace. */
  predicate WhitespaceIn(s: string, lo: nat, hi: nat)
    requires lo <= hi <= |s|
  {
    forall i {:trigger IsWhitespace(s[i])} :: lo <= i < hi ==> IsWhitespace(s[i])
  }

  predicate AllWhitespace(s: string)
  {
    WhitespaceIn(s, 0, |s|)
  }

  /** Neither end of `s` is whitespace. */
  predicate IsTrimmed(s: string)
  {
    s == [] || (!IsWhitespace(s[0]) && !IsWhitespace(s[|s| - 1]))
  }

  /** Where the leading whitespace of `s` ends. */
  function LeadingEnd(s: string): (n: nat)
    ensures n <= |s| && WhitespaceIn(s, 0, n)
    ensures n < |s| ==> !IsWhitespace(s[n])
    decreases |s|
  {
    if s != [] && IsWhitespace(s[0]) then
      var m := LeadingEnd(s[1..]);
      assert WhitespaceIn(s, 0, 1 + m) by {
        forall i | 1 <= i < 1 + m ensures IsWhitespace(s[i]) {
          assert s[i] == s[1..][i - 1];
        }
      }
      1 + m
    else 0
  }

  /** Where the trailing whitespace of `s` starts. */
  function TrailingStart(s: string): (k: nat)
    ensures k <= |s| && WhitespaceIn(s, k, |s|)
    ensures k > 0 ==> !IsWhitespace(s[k - 1])
    decreases |s|
  {
    if s != [] && IsWhitespace(s[|s| - 1]) then
      var k := TrailingStart(s[..|s| - 1]);
      assert WhitespaceIn(s, k, |s|) by {
        forall i | k <= i < |s| - 1 ensures IsWhitespace(s[i]) {
          assert s[i] == s[..|s| - 1][i];
        }
      }
      k
    else |s|
  }

  /** `s.trim()`: the part of `s` between its leading and its trailing
      whitespace, empty when `s` is whitespace only. */
  function Trim(s: string): (r: string)
    ensures |r| <= |s|
    ensures IsTrimmed(r)
  {
    var lo, hi := LeadingEnd(s), TrailingStart(s);
    if lo == |s| then [] else
      assert lo < hi;
      s[lo..hi]
  }

  /** `trim` adds no character: one absent from `s` is absent from `Trim(s)`. */
  lemma TrimKeepsOut(s: string, ch: char)
    requires ch !in s
    ensures ch !in Trim(s)
  {
    var lo, hi := LeadingEnd(s), TrailingStart(s);
    if lo < |s| {
      forall i | 0 <= i < |Trim(s)| ensures Trim(s)[i] != ch {
        assert Trim(s)[i] == s[lo + i];
      }
    }
  }

  /** What `trim` keeps is the contiguous part of `s` between its leading and
      its trailing whitespace, and it keeps nothing exactly when `s` is
      whitespace only. */
  lemma TrimDecomposes(s: string)
    ensures WhitespaceIn(s, 0, LeadingEnd(s)) && WhitespaceIn(s, TrailingStart(s), |s|)
    ensures Trim(s) == [] <==> AllWhitespace(s)
    ensures Trim(s) != [] ==>
      LeadingEnd(s) < TrailingStart(s) && Trim(s) == s[LeadingEnd(s)..TrailingStart(s)]
  {
    if LeadingEnd(s) < |s| {
      assert !IsWhitespace(s[LeadingEnd(s)]);
    }
  }

  /** Whitespace followed by a non-whitespace character (or by nothing):
      the leading whitespace ends exactly there. */
  lemma LeadingEndOf(pre: string, rest: string)
    requires AllWhitespace(pre)
    requires rest == [] || !IsWhitespace(rest[0])
    ensures LeadingEnd(pre + rest) == |pre|
  {
    var s := pre + rest;
    forall i | 0 <= i < |pre| ensures IsWhitespace(s[i]) {
      assert s[i] == pre[i];
    }
    assert |pre| < |s| ==> s[|pre|] == rest[0];
  }

  /** Whitespace after a non-whitespace character (or after nothing): the
      trailing whitespace starts exactly there. */
  lemma TrailingStartOf(rest: string, suf: string)
    requires AllWhitespace(suf)
    requires rest == [] || !IsWhitespace(rest[|rest| - 1])
    ensures TrailingStart(rest + suf) == |rest|
  {
    var s := rest + suf;
    forall i | |rest| <= i < |s| ensures IsWhitespace(s[i]) {
      assert s[i] == suf[i - |rest|];
    }
    assert |rest| > 0 ==> s[|rest| - 1] == rest[|rest| - 1];
  }

  /** `trim` is determined by that shape: whitespace, then a part with no
      whitespace at either end, then whitespace, trims to that part. */
  lemma TrimUnique(pre: string, m: string, suf: string)
    requires AllWhitespace(pre) && AllWhitespace(suf)
    requires IsTrimmed(m)
    ensures Trim(pre + m + suf) == m
  {
    var s := pre + m + suf;
    if m == [] {
      assert s == pre + suf;
      forall i | 0 <= i < |s| ensures IsWhitespace(s[i]) {
        if i < |pre| {
          assert s[i] == pre[i];
        } else {
          assert s[i] == suf[i - |pre|];
        }
      }
      LeadingEndOf(s, []);
    } else {
      assert s == pre + (m + suf);
      LeadingEndOf(pre, m + suf);
      assert s == (pre + m) + suf;
      TrailingStartOf(pre + m, suf);
      assert s[|pre|..|pre| + |m|] == m;
    }
  }
}

/** `sort_colors_lch`: the members of one cluster in ascending order of the
    key `(H, C, L)` of their LCH coordinates, ties kept in input order
    (Python's `sorted` is stable). */
module LchSort {

  /** The coordinates `get_value_tuple()` returns, in its order `(L, C, H)`.
      They stand for the floating-point values colormath computes; only their
      order matters to the sort. */
  datatype Lch = Lch(l: int, c: int, h: int)

  /** The sort key `(pair[0][2], pair[0][1], pair[0][0])` compared as a Python
      tuple: hue first, then chroma, then lightness. */
  predicate KeyLess(a: Lch, b: Lch)
  {
    a.h < b.h || (a.h == b.h && (a.c < b.c || (a.c == b.c && a.l < b.l)))
  }

  /** The key is a strict total order on coordinates: of two different
      coordinates exactly one is below the other. */
  lemma KeyTotal(a: Lch, b: Lch)
    ensures a == b <==> !KeyLess(a, b) && !KeyLess(b, a)
    ensures !(KeyLess(a, b) && KeyLess(b, a))
  {
  }

  /** `a` may stand before `b`: its key is not above `b`'s. */
  predicate InOrder(a: string, b: string, lch: string -> Lch)
  {
    !KeyLess(lch(b), lch(a))
  }

  /** The colours in non-decreasing key order. */
  predicate Sorted(s: seq<string>, lch: string -> Lch)
  {
    forall i, j {:trigger InOrder(s[i], s[j], lch)} :: 0 <= i < j < |s| ==> InOrder(s[i], s[j], lch)
  }

  lemma SortedTail(s: seq<string>, lch: string -> Lch)
    requires s != [] && Sorted(s, lch)
    ensures Sorted(s[1..], lch)
  {
    forall i, j | 0 <= i < j < |s| - 1 ensures InOrder(s[1..][i], s[1..][j], lch) {
      assert s[1..][j] == s[j + 1] && s[1..][i] == s[i + 1];
      assert InOrder(s[i + 1], s[j + 1], lch);
    }
  }

  /** Not being below is transitive. */
  lemma KeyNotLessTrans(a: Lch, b: Lch, c: Lch)
    requires !KeyLess(b, a) && !KeyLess(c, b)
    ensures !KeyLess(c, a)
  {
  }

  /** Put `x` in front of the first colour whose key is not below its own. */
  function Insert(x: string, s: seq<string>, lch: string -> Lch): (r: seq<string>)
    ensures multiset(r) == multiset(s) + multiset{x}
    decreases |s|
  {
    if s == [] then [x]
    else if KeyLess(lch(s[0]), lch(x)) then
      assert s == [s[0]] + s[1..];
      [s[0]] + Insert(x, s[1..], lch)
    else [x] + s
  }

  /** Inserting into a sorted sequence keeps it sorted. */
  lemma {:induction false} InsertSorted(x: string, s: seq<string>, lch: string -> Lch)
    requires Sorted(s, lch)
    ensures Sorted(Insert(x, s, lch), lch)
    decreases |s|
  {
    if s == [] {
    } else if KeyLess(lch(s[0]), lch(x)) {
      var rest := Insert(x, s[1..], lch);
      SortedTail(s, lch);
      InsertSorted(x, s[1..], lch);
      forall j | 0 <= j < |rest| ensures InOrder(s[0], rest[j], lch) {
        assert rest[j] in multiset(rest);
        if rest[j] != x {
          assert rest[j] in multiset(s[1..]);
          var k :| 0 <= k < |s[1..]| && s[1..][k] == rest[j];
          assert s[k + 1] == rest[j];
          assert InOrder(s[0], s[k + 1], lch);
        }
      }
      SortedCons(s[0], rest, lch);
    } else {
      forall j | 0 <= j < |s| ensures InOrder(x, s[j], lch) {
        if j > 0 {
          assert InOrder(s[0], s[j], lch);
          KeyNotLessTrans(lch(x), lch(s[0]), lch(s[j]));
        }
      }
      SortedCons(x, s, lch);
    }
  }

  /** A colour not above any of a sorted sequence can go in front of it. */
  lemma SortedCons(x: string, s: seq<string>, lch: string -> Lch)
    requires Sorted(s, lch)
    requires forall j :: 0 <= j < |s| ==> InOrder(x, s[j], lch)
    ensures Sorted([x] + s, lch)
  {
    var r := [x] + s;
    forall i, j | 0 <= i < j < |r| ensures InOrder(r[i], r[j], lch) {
      assert r[j] == s[j - 1];
      if i > 0 {
        assert r[i] == s[i - 1];
        assert InOrder(s[i - 1], s[j - 1], lch);
      }
    }
  }

  /** `sort_colors_lch(colors)`: a permutation of the colours in
      non-decreasing key order. */
  function SortColorsLch(colors: seq<string>, lch: string -> Lch): (sorted: seq<string>)
    ensures multiset(sorted) == multiset(colors) && |sorted| == |colors|
    ensures Sorted(sorted, lch)
    decreases |colors|
  {
    if colors == [] then []
    else
      assert colors == [colors[0]] + colors[1..];
      var rest := SortColorsLch(colors[1..], lch);
      InsertSorted(colors[0], rest, lch);
      Insert(colors[0], rest, lch)
  }

  // ---------------------------------------------------------------------------
  // stability
  // ---------------------------------------------------------------------------

  /** The colours whose coordinates are `v` (hence whose keys are equal), in
      their order in `s`. */
  function WithLch(s: seq<string>, lch: string -> Lch, v: Lch): seq<string>
  {
    if s == [] then []
    else (if lch(s[0]) == v then [s[0]] else []) + WithLch(s[1..], lch, v)
  }

  lemma {:induction false} WithLchMember(s: seq<string>, lch: string -> Lch, v: Lch, x: string)
    ensures x in WithLch(s, lch, v) <==> x in s && lch(x) == v
    decreases |s|
  {
    if s != [] {
      WithLchMember(s[1..], lch, v, x);
      assert s == [s[0]] + s[1..];
    }
  }

  lemma SwapEmpty(a: seq<string>, b: seq<string>, c: seq<string>)
    requires a == [] || b == []
    ensures a + (b + c) == b + (a + c)
  {
    if a == [] {
      assert a + c == c;
    } else {
      assert b + c == c;
    }
  }

  /** Inserting into a sorted sequence puts `x` in front of every colour
      with the same coordinates. */
  lemma {:induction false} InsertWithLch(x: string, s: seq<string>, lch: string -> Lch, v: Lch)
    requires Sorted(s, lch)
    ensures WithLch(Insert(x, s, lch), lch, v) == (if lch(x) == v then [x] else []) + WithLch(s, lch, v)
    decreases |s|
  {
    var px := if lch(x) == v then [x] else [];
    if s == [] {
    } else if KeyLess(lch(s[0]), lch(x)) {
      SortedTail(s, lch);
      InsertWithLch(x, s[1..], lch, v);
      var r := Insert(x, s, lch);
      var ps := if lch(s[0]) == v then [s[0]] else [];
      assert r == [s[0]] + Insert(x, s[1..], lch);
      assert r[0] == s[0] && r[1..] == Insert(x, s[1..], lch);
      assert ps == [] || px == [];
      assert WithLch(r, lch, v) == ps + WithLch(r[1..], lch, v);
      assert WithLch(r[1..], lch, v) == px + WithLch(s[1..], lch, v);
      assert WithLch(s, lch, v) == ps + WithLch(s[1..], lch, v);
      SwapEmpty(ps, px, WithLch(s[1..], lch, v));
    } else {
      var r := [x] + s;
      assert r[0] == x && r[1..] == s;
    }
  }

  /** `sorted` is stable: colours with equal keys keep their relative order. */
  lemma {:induction false} SortStable(colors: seq<string>, lch: string -> Lch, v: Lch)
    ensures WithLch(SortColorsLch(colors, lch), lch, v) == WithLch(colors, lch, v)
    decreases |colors|
  {
    if colors != [] {
      SortStable(colors[1..], lch, v);
      InsertWithLch(colors[0], SortColorsLch(colors[1..], lch), lch, v);
    }
  }

  /** `r` is the stable sort of `s`: sorted by key, and for every key the
      colours carrying it appear in `r` exactly as they do in `s`. */
  ghost predicate IsStableSortOf(r: seq<string>, s: seq<string>, lch: string -> Lch)
  {
    Sorted(r, lch) && forall v :: WithLch(r, lch, v) == WithLch(s, lch, v)
  }

  /** `SortColorsLch` is the stable sort. */
  lemma SortColorsLchIsStableSort(colors: seq<string>, lch: string -> Lch)
    ensures IsStableSortOf(SortColorsLch(colors, lch), colors, lch)
  {
    forall v ensures WithLch(SortColorsLch(colors, lch), lch, v) == WithLch(colors, lch, v) {
      SortStable(colors, lch, v);
    }
  }

  /** Two sorted sequences that agree on the colours of every key are equal. */
  lemma {:induction false} SortedGroupsDetermine(r1: seq<string>, r2: seq<string>, lch: string -> Lch)
    requires Sorted(r1, lch) && Sorted(r2, lch)
    requires forall v :: WithLch(r1, lch, v) == WithLch(r2, lch, v)
    ensures r1 == r2
    decreases |r1|
  {
    if r1 == [] || r2 == [] {
      if r1 != [] {
        WithLchMember(r1, lch, lch(r1[0]), r1[0]);
        assert false;
      } else if r2 != [] {
        WithLchMember(r2, lch, lch(r2[0]), r2[0]);
        assert false;
      }
    } else {
      var x, y := r1[0], r2[0];
      WithLchMember(r1, lch, lch(x), x);
      WithLchMember(r2, lch, lch(x), x);
      WithLchMember(r1, lch, lch(y), y);
      WithLchMember(r2, lch, lch(y), y);
      assert !KeyLess(lch(x), lch(y)) by {
        var j :| 0 <= j < |r2| && r2[j] == x;
        if j > 0 { assert InOrder(r2[0], r2[j], lch); }
      }
      assert !KeyLess(lch(y), lch(x)) by {
        var j :| 0 <= j < |r1| && r1[j] == y;
        if j > 0 { assert InOrder(r1[0], r1[j], lch); }
      }
      KeyTotal(lch(x), lch(y));
      var v := lch(x);
      assert lch(y) == v;
      var t1, t2 := r1[1..], r2[1..];
      assert WithLch(r1, lch, v) == [x] + WithLch(t1, lch, v);
      assert WithLch(r2, lch, v) == [y] + WithLch(t2, lch, v);
      assert x == y by {
        assert WithLch(r1, lch, v)[0] == x;
        assert WithLch(r2, lch, v)[0] == y;
      }
      forall w ensures WithLch(t1, lch, w) == WithLch(t2, lch, w) {
        var p := if v == w then [x] else [];
        assert WithLch(r1, lch, w) == p + WithLch(t1, lch, w);
        assert WithLch(r2, lch, w) == p + WithLch(t2, lch, w);
        assert WithLch(t1, lch, w) == WithLch(r1, lch, w)[|p|..];
        assert WithLch(t2, lch, w) == WithLch(r2, lch, w)[|p|..];
      }
      SortedTail(r1, lch);
      SortedTail(r2, lch);
      SortedGroupsDetermine(t1, t2, lch);
      assert r1 == [x] + t1 && r2 == [y] + t2;
    }
  }

  /** The stable sort is unique, so `SortColorsLch` is the only result with
      its three properties. */
  lemma StableSortUnique(r: seq<string>, colors: seq<string>, lch: string -> Lch)
    requires IsStableSortOf(r, colors, lch)
    ensures r == SortColorsLch(colors, lch)
  {
    SortColorsLchIsStableSort(colors, lch);
    SortedGroupsDetermine(r, SortColorsLch(colors, lch), lch);
  }
}

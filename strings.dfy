/** Python's string operations used by the pipeline: code-point ordering and `sorted`, `in` on
    substrings, `endswith`, `split`, `join`, `replace(c, "")`, and `list(set(...))`. */
module Strings {

  /** Python's `a < b` on str: lexicographic on code points, a proper prefix first. */
  predicate LexLess(a: string, b: string)
  {
    if |a| == 0 then |b| > 0
    else if |b| == 0 then false
    else if a[0] != b[0] then a[0] < b[0]
    else LexLess(a[1..], b[1..])
  }

  predicate LexLe(a: string, b: string)
  {
    a == b || LexLess(a, b)
  }

  lemma {:induction false} LexLessIrreflexive(a: string)
    ensures !LexLess(a, a)
  {
    if |a| > 0 {
      LexLessIrreflexive(a[1..]);
    }
  }

  lemma {:induction false} LexLessTransitive(a: string, b: string, c: string)
    requires LexLess(a, b) && LexLess(b, c)
    ensures LexLess(a, c)
  {
    if |a| > 0 && |b| > 0 && |c| > 0 && a[0] == b[0] == c[0] {
      LexLessTransitive(a[1..], b[1..], c[1..]);
    }
  }

  /** Any two distinct strings are ordered one way or the other. */
  lemma {:induction false} LexLessTotal(a: string, b: string)
    requires a != b
    ensures LexLess(a, b) || LexLess(b, a)
  {
    if |a| > 0 && |b| > 0 && a[0] == b[0] {
      assert a == [a[0]] + a[1..] && b == [b[0]] + b[1..];
      LexLessTotal(a[1..], b[1..]);
    }
  }

  lemma LexLeTransitive(a: string, b: string, c: string)
    requires LexLe(a, b) && LexLe(b, c)
    ensures LexLe(a, c)
  {
    if a != b && b != c {
      LexLessTransitive(a, b, c);
    }
  }

  predicate Sorted(s: seq<string>)
  {
    forall i, j :: 0 <= i < j < |s| ==> LexLe(s[i], s[j])
  }

  predicate StrictlySorted(s: seq<string>)
  {
    forall i, j :: 0 <= i < j < |s| ==> LexLess(s[i], s[j])
  }

  predicate Distinct<T(==)>(s: seq<T>)
  {
    forall i, j :: 0 <= i < j < |s| ==> s[i] != s[j]
  }

  function Insert(x: string, s: seq<string>): (r: seq<string>)
    requires Sorted(s)
    ensures Sorted(r)
    ensures multiset(r) == multiset(s) + multiset{x}
  {
    if s == [] then [x]
    else if LexLe(x, s[0]) then
      forall j | 0 <= j < |s| ensures LexLe(x, s[j]) {
        LexLeTransitive(x, s[0], s[j]);
      }
      [x] + s
    else
      var rest := Insert(x, s[1..]);
      assert s == [s[0]] + s[1..];
      LexLessTotal(x, s[0]);
      forall y | y in rest ensures LexLe(s[0], y) {
        assert y in multiset(rest);
        if y != x {
          assert y in s[1..];
        }
      }
      [s[0]] + rest
  }

  /** `sorted(s)` */
  function Sort(s: seq<string>): (r: seq<string>)
    ensures Sorted(r)
    ensures multiset(r) == multiset(s)
  {
    if s == [] then []
    else
      assert s == s[..|s| - 1] + [s[|s| - 1]];
      Insert(s[|s| - 1], Sort(s[..|s| - 1]))
  }

  /** Sorting a list without repeats orders it strictly. */
  lemma SortDistinct(s: seq<string>)
    requires Distinct(s)
    ensures StrictlySorted(Sort(s)) && Distinct(Sort(s))
    ensures forall x :: x in Sort(s) <==> x in s
  {
    var r := Sort(s);
    assert forall x :: x in r <==> x in multiset(r);
    assert forall x :: x in s <==> x in multiset(s);
    forall x ensures multiset(r)[x] <= 1 {
      DistinctCountsOne(s, x);
    }
    CountsOneDistinct(r);
  }

  lemma {:induction false} DistinctCountsOne<T>(s: seq<T>, x: T)
    requires Distinct(s)
    ensures multiset(s)[x] <= 1
  {
    if s != [] {
      var init := s[..|s| - 1];
      assert s == init + [s[|s| - 1]];
      DistinctCountsOne(init, x);
      if x == s[|s| - 1] {
        assert x !in init;
      }
    }
  }

  lemma {:induction false} CountsOneDistinct<T>(s: seq<T>)
    requires forall x :: multiset(s)[x] <= 1
    ensures Distinct(s)
  {
    if s != [] {
      var init, last := s[..|s| - 1], s[|s| - 1];
      assert s == init + [last];
      assert multiset(s) == multiset(init) + multiset{last};
      forall x ensures multiset(init)[x] <= 1 {
        assert multiset(s)[x] >= multiset(init)[x];
      }
      CountsOneDistinct(init);
      assert multiset(s)[last] == multiset(init)[last] + 1;
      assert last !in init;
    }
  }

  /** The elements of `s` without repeats, each at its first occurrence (`DedupFirstAppearance`):
      `unique()`, and `list(set(s))` up to order. */
  function Dedup<T(==,!new)>(s: seq<T>): (r: seq<T>)
    ensures Distinct(r)
    ensures forall x :: x in r <==> x in s
    ensures |r| <= |s|
  {
    if s == [] then []
    else
      var init := Dedup(s[..|s| - 1]);
      assert s == s[..|s| - 1] + [s[|s| - 1]];
      if s[|s| - 1] in init then init else init + [s[|s| - 1]]
  }

  /** `s.index(x)`: the position of the first occurrence of `x`. */
  function FirstIndex<T(==)>(s: seq<T>, x: T): (r: nat)
    requires x in s
    ensures r < |s| && s[r] == x
    ensures forall k :: 0 <= k < r ==> s[k] != x
  {
    if s[0] == x then 0 else 1 + FirstIndex(s[1..], x)
  }

  /** An element of a prefix is first found at the same position in the whole sequence. */
  lemma FirstIndexPrefix<T>(s: seq<T>, n: nat, x: T)
    requires n <= |s| && x in s[..n]
    ensures x in s && FirstIndex(s, x) == FirstIndex(s[..n], x)
  {
    var b := FirstIndex(s[..n], x);
    assert s[b] == x;
    var a := FirstIndex(s, x);
    assert s[..n][a] == x by { assert a <= b; }
  }

  /** `Dedup` lists the elements in the order of their first occurrences in `s`. */
  lemma {:induction false} DedupFirstAppearance<T(!new)>(s: seq<T>)
    ensures forall i, j :: 0 <= i < j < |Dedup(s)| ==> FirstIndex(s, Dedup(s)[i]) < FirstIndex(s, Dedup(s)[j])
  {
    if s != [] {
      var n := |s| - 1;
      var init := s[..n];
      var d := Dedup(init);
      DedupFirstAppearance(init);
      assert s == init + [s[n]];
      var r := Dedup(s);
      if s[n] !in init {
        assert r == d + [s[n]];
        assert FirstIndex(s, s[n]) == n;
        forall i, j | 0 <= i < j < |r| ensures FirstIndex(s, r[i]) < FirstIndex(s, r[j]) {
          assert r[i] == d[i] && d[i] in d;
          FirstIndexPrefix(s, n, d[i]);
          if j < |d| {
            assert r[j] == d[j] && d[j] in d;
            FirstIndexPrefix(s, n, d[j]);
            assert FirstIndex(init, d[i]) < FirstIndex(init, d[j]);
          } else {
            assert r[j] == s[n];
          }
        }
      } else {
        assert r == d;
        forall i, j | 0 <= i < j < |r| ensures FirstIndex(s, r[i]) < FirstIndex(s, r[j]) {
          assert d[i] in d && d[j] in d;
          FirstIndexPrefix(s, n, d[i]);
          FirstIndexPrefix(s, n, d[j]);
          assert FirstIndex(init, d[i]) < FirstIndex(init, d[j]);
          assert r[i] == d[i];
        }
      }
    }
  }

  /** Same elements, each once: one of the orders in which `list(set(s))` can come out. */
  ghost predicate IsSetOrder<T(!new)>(names: seq<T>, s: seq<T>)
  {
    && Distinct(names)
    && (forall x :: x in names <==> x in s)
  }

  /** `sub in s` on str */
  predicate IsInfix(sub: string, s: string)
    decreases |s|
  {
    |sub| <= |s| && (s[..|sub|] == sub || IsInfix(sub, s[1..]))
  }

  /** `s.endswith(suffix)` */
  predicate EndsWith(s: string, suffix: string)
  {
    |suffix| <= |s| && s[|s| - |suffix|..] == suffix
  }

  lemma EndsWithIsInfix(s: string, suffix: string)
    requires EndsWith(s, suffix)
    ensures IsInfix(suffix, s)
    decreases |s|
  {
    if s[..|suffix|] != suffix {
      assert s[1..][|s[1..]| - |suffix|..] == s[|s| - |suffix|..];
      EndsWithIsInfix(s[1..], suffix);
    }
  }

  /** `s.split(sep)[0]`: everything before the first `sep`. */
  function Prefix(s: string, sep: char): (r: string)
    ensures |r| <= |s| && r == s[..|r|]
    ensures sep !in r
    ensures |r| < |s| ==> s[|r|] == sep
  {
    if s == [] || s[0] == sep then [] else [s[0]] + Prefix(s[1..], sep)
  }

  /** `s.split(sep)` with an explicit separator: never empty, one piece more than separators. */
  function Split(s: string, sep: char): (r: seq<string>)
    ensures |r| >= 1
    ensures forall i :: 0 <= i < |r| ==> sep !in r[i]
  {
    if s == [] then [[]]
    else if s[0] == sep then [[]] + Split(s[1..], sep)
    else
      var rest := Split(s[1..], sep);
      [[s[0]] + rest[0]] + rest[1..]
  }

  /** `sep.join(pieces)` */
  function Join(pieces: seq<string>, sep: char): string
  {
    if pieces == [] then []
    else if |pieces| == 1 then pieces[0]
    else pieces[0] + [sep] + Join(pieces[1..], sep)
  }

  lemma {:induction false} SplitAfterPiece(p: string, rest: string, sep: char)
    requires sep !in p
    ensures Split(p + [sep] + rest, sep) == [p] + Split(rest, sep)
  {
    var q := p + [sep] + rest;
    if p == [] {
      assert q == [sep] + rest;
      assert q[1..] == rest;
    } else {
      assert q[0] == p[0] && q[1..] == p[1..] + [sep] + rest;
      SplitAfterPiece(p[1..], rest, sep);
      assert [p[0]] + p[1..] == p;
    }
  }

  lemma {:induction false} SplitNoSeparator(p: string, sep: char)
    requires sep !in p
    ensures Split(p, sep) == [p]
  {
    if p != [] {
      SplitNoSeparator(p[1..], sep);
      assert [p[0]] + p[1..] == p;
    }
  }

  /** Splitting a join gives the pieces back when no piece contains the separator. */
  lemma {:induction false} SplitJoin(pieces: seq<string>, sep: char)
    requires |pieces| >= 1
    requires forall i :: 0 <= i < |pieces| ==> sep !in pieces[i]
    ensures Split(Join(pieces, sep), sep) == pieces
  {
    if |pieces| == 1 {
      SplitNoSeparator(pieces[0], sep);
    } else {
      SplitJoin(pieces[1..], sep);
      SplitAfterPiece(pieces[0], Join(pieces[1..], sep), sep);
      assert pieces == [pieces[0]] + pieces[1..];
    }
  }

  lemma {:induction false} JoinAvoids(pieces: seq<string>, sep: char, c: char)
    requires c != sep
    requires forall i :: 0 <= i < |pieces| ==> c !in pieces[i]
    ensures c !in Join(pieces, sep)
  {
    if |pieces| > 1 {
      JoinAvoids(pieces[1..], sep, c);
    }
  }

  /** `s.replace(c, "")` for a single character. */
  function RemoveChar(s: string, c: char): string
  {
    if s == [] then []
    else (if s[0] == c then [] else [s[0]]) + RemoveChar(s[1..], c)
  }

  /** No `c` remains, every other character stays, and text without `c` is unchanged. */
  lemma {:induction false} RemoveCharFacts(s: string, c: char)
    ensures c !in RemoveChar(s, c)
    ensures forall x :: x in RemoveChar(s, c) <==> x in s && x != c
    ensures c !in s ==> RemoveChar(s, c) == s
  {
    if s != [] {
      RemoveCharFacts(s[1..], c);
      assert s == [s[0]] + s[1..];
    }
  }

  lemma RemoveCharSingle(x: char, c: char)
    ensures RemoveChar([x], c) == if x == c then [] else [x]
  {
    assert [x][0] == x && [x][1..] == [];
  }

  /** Removing a character distributes over concatenation. */
  lemma {:induction false} RemoveCharConcat(s: string, t: string, c: char)
    ensures RemoveChar(s + t, c) == RemoveChar(s, c) + RemoveChar(t, c)
  {
    if s != [] {
      var u := s + t;
      assert u[0] == s[0] && u[1..] == s[1..] + t;
      RemoveCharConcat(s[1..], t, c);
      var h := if s[0] == c then [] else [s[0]];
      assert RemoveChar(u, c) == h + RemoveChar(u[1..], c);
      assert RemoveChar(s, c) == h + RemoveChar(s[1..], c);
      var a, b := RemoveChar(s[1..], c), RemoveChar(t, c);
      assert h + (a + b) == (h + a) + b;
    } else {
      assert s + t == t;
    }
  }
}

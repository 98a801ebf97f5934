/** Python string operations the core relies on, on `seq<char>`. */
module Strings {

  predicate StartsWith(s: string, prefix: string) {
    |prefix| <= |s| && s[..|prefix|] == prefix
  }

  predicate EndsWith(s: string, suffix: string) {
    |suffix| <= |s| && s[|s| - |suffix|..] == suffix
  }

  /** `f"{prefix}{s}"` unless `s` starts with `prefix` already. */
  function AddPrefix(prefix: string, s: string): (r: string)
    ensures StartsWith(r, prefix)
    ensures StartsWith(s, prefix) ==> r == s
    ensures !StartsWith(s, prefix) ==> r == prefix + s && r[|prefix|..] == s
  {
    if StartsWith(s, prefix) then s
    else
      assert (prefix + s)[..|prefix|] == prefix;
      prefix + s
  }

  lemma AddPrefixIdempotent(prefix: string, s: string)
    ensures AddPrefix(prefix, AddPrefix(prefix, s)) == AddPrefix(prefix, s)
  {
  }

  /** `[f"{prefix}{c}" if not c.startswith(prefix) else c for c in cols]` */
  function PrefixAll(prefix: string, cols: seq<string>): (r: seq<string>)
    ensures |r| == |cols|
    ensures forall k :: 0 <= k < |cols| ==> StartsWith(r[k], prefix)
    ensures forall k :: 0 <= k < |cols| && StartsWith(cols[k], prefix) ==> r[k] == cols[k]
    ensures forall k :: 0 <= k < |cols| && !StartsWith(cols[k], prefix) ==> r[k] == prefix + cols[k]
  {
    seq(|cols|, k requires 0 <= k < |cols| => AddPrefix(prefix, cols[k]))
  }

  /** Prefixing the labels twice is prefixing them once. */
  lemma PrefixAllIdempotent(prefix: string, cols: seq<string>)
    ensures PrefixAll(prefix, PrefixAll(prefix, cols)) == PrefixAll(prefix, cols)
  {
    var once := PrefixAll(prefix, cols);
    forall k | 0 <= k < |cols| ensures PrefixAll(prefix, once)[k] == once[k] {
      AddPrefixIdempotent(prefix, cols[k]);
    }
  }

  /** `sep.join(parts)` */
  function Join(sep: string, parts: seq<string>): string {
    if |parts| == 0 then ""
    else if |parts| == 1 then parts[0]
    else parts[0] + sep + Join(sep, parts[1..])
  }

  /** `s.replace(pattern, replacement)`: every non-overlapping occurrence, scanning left to right. */
  function ReplaceAll(s: string, pattern: string, replacement: string): string
    requires |pattern| > 0
    decreases |s|
  {
    if |s| < |pattern| then s
    else if s[..|pattern|] == pattern then replacement + ReplaceAll(s[|pattern|..], pattern, replacement)
    else [s[0]] + ReplaceAll(s[1..], pattern, replacement)
  }

  function DigitChar(d: nat): char
    requires d < 10
  {
    "0123456789"[d]
  }

  /** `str(n)` for a non-negative integer. */
  function NatToString(n: nat): string
    decreases n
  {
    if n < 10 then [DigitChar(n)] else NatToString(n / 10) + [DigitChar(n % 10)]
  }

  /** `str(i)` for an integer. */
  function IntToString(i: int): string {
    if i < 0 then "-" + NatToString(-i) else NatToString(i)
  }

  /** `repr(s)` for a string without quotes or escapes inside. */
  function Repr(s: string): string {
    "'" + s + "'"
  }

  function ReprAll(ss: seq<string>): (r: seq<string>)
    ensures |r| == |ss|
    ensures forall i :: 0 <= i < |ss| ==> r[i] == Repr(ss[i])
  {
    if ss == [] then [] else [Repr(ss[0])] + ReprAll(ss[1..])
  }

  /** `repr(list_of_strings)`, e.g. `['a', 'b']`. */
  function ListRepr(ss: seq<string>): string {
    "[" + Join(", ", ReprAll(ss)) + "]"
  }

  /** Python's `<` on strings: lexicographic by code point. */
  predicate LexLt(a: string, b: string)
    decreases |a|
  {
    |b| > 0 && (|a| == 0 || a[0] < b[0] || (a[0] == b[0] && LexLt(a[1..], b[1..])))
  }

  lemma {:induction false} LexLtIrreflexive(a: string)
    ensures !LexLt(a, a)
    decreases |a|
  {
    if |a| > 0 { LexLtIrreflexive(a[1..]); }
  }

  lemma {:induction false} LexLtTransitive(a: string, b: string, c: string)
    requires LexLt(a, b) && LexLt(b, c)
    ensures LexLt(a, c)
    decreases |a|
  {
    if |a| > 0 && a[0] == b[0] && b[0] == c[0] {
      LexLtTransitive(a[1..], b[1..], c[1..]);
    }
  }

  lemma {:induction false} LexLtTotal(a: string, b: string)
    requires a != b
    ensures LexLt(a, b) || LexLt(b, a)
    decreases |a|
  {
    if |a| > 0 && |b| > 0 && a[0] == b[0] {
      assert a == [a[0]] + a[1..] && b == [b[0]] + b[1..];
      LexLtTotal(a[1..], b[1..]);
    }
  }
}

/** Ordering and sorting helpers for Python's `sorted` on distinct values. */
module Ordering {

  ghost predicate StrictTotalOrder<T(!new)>(lt: (T, T) -> bool) {
    && (forall a :: !lt(a, a))
    && (forall a, b, c :: lt(a, b) && lt(b, c) ==> lt(a, c))
    && (forall a, b :: a != b ==> lt(a, b) || lt(b, a))
  }

  /** Strictly increasing, hence also free of duplicates. */
  predicate StrictlySorted<T>(lt: (T, T) -> bool, s: seq<T>) {
    forall i, j :: 0 <= i < j < |s| ==> lt(s[i], s[j])
  }

  function Elems<T>(s: seq<T>): set<T> {
    set x | x in s
  }

  /** Inserts `x` into a sorted sequence, keeping it sorted and duplicate-free. */
  function Insert<T(==)>(lt: (T, T) -> bool, s: seq<T>, x: T): seq<T>
    decreases |s|
  {
    if s == [] then [x]
    else if x == s[0] then s
    else if lt(x, s[0]) then [x] + s
    else [s[0]] + Insert(lt, s[1..], x)
  }

  lemma {:induction false} InsertCorrect<T(!new)>(lt: (T, T) -> bool, s: seq<T>, x: T)
    requires StrictTotalOrder(lt) && StrictlySorted(lt, s)
    ensures StrictlySorted(lt, Insert(lt, s, x))
    ensures Elems(Insert(lt, s, x)) == Elems(s) + {x}
    decreases |s|
  {
    if s == [] {
    } else if x == s[0] {
    } else if lt(x, s[0]) {
      var r := [x] + s;
      forall i, j | 0 <= i < j < |r| ensures lt(r[i], r[j]) {
        if i > 0 {
          assert r[i] == s[i - 1] && r[j] == s[j - 1];
        } else if j > 1 {
          assert lt(s[0], s[j - 1]);
        }
      }
      assert Elems(r) == Elems(s) + {x};
    } else {
      assert lt(s[0], x);
      var t := s[1..];
      assert StrictlySorted(lt, t) by {
        forall i, j | 0 <= i < j < |t| ensures lt(t[i], t[j]) { assert t[i] == s[i + 1] && t[j] == s[j + 1]; }
      }
      InsertCorrect(lt, t, x);
      var it := Insert(lt, t, x);
      var r := [s[0]] + it;
      forall i, j | 0 <= i < j < |r| ensures lt(r[i], r[j]) {
        if i > 0 {
          assert r[i] == it[i - 1] && r[j] == it[j - 1];
        } else {
          assert r[j] == it[j - 1];
          assert r[j] in Elems(t) + {x};
          if r[j] != x {
            var k :| 0 <= k < |t| && t[k] == r[j];
            assert lt(s[0], s[k + 1]);
          }
        }
      }
      assert s == [s[0]] + t;
      assert Elems(s) == {s[0]} + Elems(t);
      assert Elems(r) == {s[0]} + Elems(it);
    }
  }

  /** The distinct elements of `s`, in increasing order (`sorted(set(s))`). */
  function SortDistinct<T(==)>(lt: (T, T) -> bool, s: seq<T>): seq<T>
    decreases |s|
  {
    if s == [] then [] else Insert(lt, SortDistinct(lt, s[..|s| - 1]), s[|s| - 1])
  }

  lemma {:induction false} SortDistinctCorrect<T(!new)>(lt: (T, T) -> bool, s: seq<T>)
    requires StrictTotalOrder(lt)
    ensures StrictlySorted(lt, SortDistinct(lt, s))
    ensures Elems(SortDistinct(lt, s)) == Elems(s)
    decreases |s|
  {
    if s != [] {
      var init := s[..|s| - 1];
      SortDistinctCorrect(lt, init);
      InsertCorrect(lt, SortDistinct(lt, init), s[|s| - 1]);
      assert s == init + [s[|s| - 1]];
      assert Elems(s) == Elems(init) + {s[|s| - 1]};
    }
  }

  /** A strictly sorted sequence is the only sorted arrangement of its elements. */
  lemma {:induction false} SortedUnique<T(!new)>(lt: (T, T) -> bool, a: seq<T>, b: seq<T>)
    requires StrictTotalOrder(lt) && StrictlySorted(lt, a) && StrictlySorted(lt, b)
    requires Elems(a) == Elems(b)
    ensures a == b
    decreases |a|
  {
    assert a != [] ==> a[0] in Elems(b);
    assert b != [] ==> b[0] in Elems(a);
    if a != [] {
      var i :| 0 <= i < |b| && b[i] == a[0];
      var j :| 0 <= j < |a| && a[j] == b[0];
      assert a[0] == b[0];
      var ta, tb := a[1..], b[1..];
      assert StrictlySorted(lt, ta) by {
        forall i, j | 0 <= i < j < |ta| ensures lt(ta[i], ta[j]) { assert ta[i] == a[i + 1] && ta[j] == a[j + 1]; }
      }
      assert StrictlySorted(lt, tb) by {
        forall i, j | 0 <= i < j < |tb| ensures lt(tb[i], tb[j]) { assert tb[i] == b[i + 1] && tb[j] == b[j + 1]; }
      }
      assert a == [a[0]] + ta && b == [b[0]] + tb;
      forall x | x in Elems(ta) ensures x in Elems(tb) {
        var k :| 0 <= k < |ta| && ta[k] == x;
        assert lt(a[0], a[k + 1]);
        assert x in Elems(b);
        var m :| 0 <= m < |b| && b[m] == x;
        assert m != 0;
        assert tb[m - 1] == x;
      }
      forall x | x in Elems(tb) ensures x in Elems(ta) {
        var k :| 0 <= k < |tb| && tb[k] == x;
        assert lt(b[0], b[k + 1]);
        assert x in Elems(a);
        var m :| 0 <= m < |a| && a[m] == x;
        assert m != 0;
        assert ta[m - 1] == x;
      }
      SortedUnique(lt, ta, tb);
    }
  }
}

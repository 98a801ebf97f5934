/**
 * A positional model of the pandas DataFrame operations the core relies on:
 * column selection, assignment, row masks and `DataFrame.merge`.
 *
 * A frame is its column labels and its rows, each row holding one cell per
 * label. Labels may repeat, as in pandas; a label is then read at its first
 * occurrence.
 */
module Frames {
  import opened Values
  import opened Strings

  type Row = seq<Value>

  datatype Frame = Frame(columns: seq<string>, rows: seq<Row>)

  /** Every row has one cell per column label. */
  predicate Valid(f: Frame) {
    forall i :: 0 <= i < |f.rows| ==> |f.rows[i]| == |f.columns|
  }

  /** `DataFrame.empty`: no rows, or no columns. */
  predicate Empty(f: Frame) {
    |f.rows| == 0 || |f.columns| == 0
  }

  predicate HasColumns(f: Frame, cs: seq<string>) {
    forall c :: c in cs ==> c in f.columns
  }

  /** Position of the first occurrence of a label. */
  function IndexOf(cols: seq<string>, c: string): (k: nat)
    requires c in cols
    ensures k < |cols| && cols[k] == c
    ensures forall q :: 0 <= q < k ==> cols[q] != c
  {
    if cols[0] == c then 0 else 1 + IndexOf(cols[1..], c)
  }

  lemma IndexOfUnique(cols: seq<string>, c: string, p: nat)
    requires p < |cols| && cols[p] == c
    requires forall q :: 0 <= q < p ==> cols[q] != c
    ensures IndexOf(cols, c) == p
  {
  }

  lemma IndexOfAppendLeft(a: seq<string>, b: seq<string>, c: string)
    requires c in a
    ensures IndexOf(a + b, c) == IndexOf(a, c)
  {
    IndexOfUnique(a + b, c, IndexOf(a, c));
  }

  lemma {:induction false} IndexOfAppendRight(a: seq<string>, b: seq<string>, c: string)
    requires c !in a && c in b
    ensures IndexOf(a + b, c) == |a| + IndexOf(b, c)
  {
    if a == [] {
      assert a + b == b;
    } else {
      assert (a + b)[0] == a[0] && a[0] != c;
      assert (a + b)[1..] == a[1..] + b;
      IndexOfAppendRight(a[1..], b, c);
    }
  }

  lemma IndexOfAppend(a: seq<string>, b: seq<string>, c: string)
    requires c in a || c in b
    ensures c in a ==> IndexOf(a + b, c) == IndexOf(a, c)
    ensures c !in a ==> IndexOf(a + b, c) == |a| + IndexOf(b, c)
  {
    if c in a { IndexOfAppendLeft(a, b, c); } else { IndexOfAppendRight(a, b, c); }
  }

  /** The cell of row `i` under label `c`. */
  function Cell(f: Frame, i: nat, c: string): Value
    requires Valid(f) && i < |f.rows| && c in f.columns
  {
    f.rows[i][IndexOf(f.columns, c)]
  }

  /** `df[c]`, as a sequence of cells. */
  function Column(f: Frame, c: string): (vs: seq<Value>)
    requires Valid(f) && c in f.columns
    ensures |vs| == |f.rows|
    ensures forall i :: 0 <= i < |f.rows| ==> vs[i] == Cell(f, i, c)
  {
    seq(|f.rows|, i requires 0 <= i < |f.rows| => Cell(f, i, c))
  }

  /** The labels of `s` that satisfy `p`, in order. */
  function Keep(s: seq<string>, p: string -> bool): (r: seq<string>)
    ensures forall x :: x in r <==> x in s && p(x)
    ensures |r| <= |s|
  {
    if s == [] then []
    else if p(s[0]) then [s[0]] + Keep(s[1..], p)
    else Keep(s[1..], p)
  }

  /** The listed columns of `f`, in the listed order. */
  function Project(f: Frame, sel: seq<string>): (g: Frame)
    requires Valid(f) && HasColumns(f, sel)
    ensures Valid(g) && g.columns == sel && |g.rows| == |f.rows|
    ensures forall i, c :: 0 <= i < |g.rows| && c in sel ==> Cell(g, i, c) == Cell(f, i, c)
  {
    var g := Frame(sel, seq(|f.rows|, i requires 0 <= i < |f.rows| =>
                            seq(|sel|, k requires 0 <= k < |sel| => Cell(f, i, sel[k]))));
    assert forall i, c :: 0 <= i < |g.rows| && c in sel ==> Cell(g, i, c) == Cell(f, i, sel[IndexOf(sel, c)]);
    g
  }

  /** `df.filter(items)`: the listed labels that exist, in the listed order. */
  function FilterColumns(f: Frame, items: seq<string>): (g: Frame)
    requires Valid(f)
    ensures Valid(g) && |g.rows| == |f.rows|
    ensures forall c :: c in g.columns <==> c in items && c in f.columns
    ensures g.columns == Keep(items, Present(f.columns))
    ensures forall i, c :: 0 <= i < |g.rows| && c in g.columns ==> Cell(g, i, c) == Cell(f, i, c)
  {
    Project(f, Keep(items, Present(f.columns)))
  }

  /** Keeping the labels of `s + [x]` keeps those of `s`, then `x` when it passes. */
  lemma {:induction false} KeepSnoc(s: seq<string>, x: string, p: string -> bool)
    ensures Keep(s + [x], p) == Keep(s, p) + (if p(x) then [x] else [])
  {
    if s != [] {
      assert (s + [x])[1..] == s[1..] + [x];
      KeepSnoc(s[1..], x, p);
    }
  }

  /** Membership in `cols`, as a label test. */
  function Present(cols: seq<string>): string -> bool {
    c => c in cols
  }

  /** Keeping labels that all pass the test keeps them all. */
  lemma {:induction false} KeepAll(s: seq<string>, p: string -> bool)
    requires forall k :: 0 <= k < |s| ==> p(s[k])
    ensures Keep(s, p) == s
  {
    if s != [] {
      KeepAll(s[1..], p);
    }
  }

  /** Nothing is kept when nothing passes. */
  lemma {:induction false} KeepNone(s: seq<string>, p: string -> bool)
    requires forall k :: 0 <= k < |s| ==> !p(s[k])
    ensures Keep(s, p) == []
  {
    if s != [] {
      KeepNone(s[1..], p);
    }
  }

  /** Keeping distributes over concatenation. */
  lemma {:induction false} KeepAppend(a: seq<string>, b: seq<string>, p: string -> bool)
    ensures Keep(a + b, p) == Keep(a, p) + Keep(b, p)
  {
    if a != [] {
      assert (a + b)[0] == a[0];
      assert (a + b)[1..] == a[1..] + b;
      KeepAppend(a[1..], b, p);
    } else {
      assert a + b == b;
    }
  }

  /** `df.filter(items)` keeps the listed labels exactly, when all are present. */
  lemma FilterColumnsAll(f: Frame, items: seq<string>)
    requires Valid(f) && HasColumns(f, items)
    ensures FilterColumns(f, items).columns == items
  {
    KeepAll(items, Present(f.columns));
  }

  /** The columns whose label satisfies `keep`, in their order (`df.filter(regex=…)`, `df.drop`). */
  function KeepColumns(f: Frame, keep: string -> bool): (g: Frame)
    requires Valid(f)
    ensures Valid(g) && |g.rows| == |f.rows|
    ensures forall c :: c in g.columns <==> c in f.columns && keep(c)
    ensures forall i, c :: 0 <= i < |g.rows| && c in g.columns ==> Cell(g, i, c) == Cell(f, i, c)
  {
    Project(f, Keep(f.columns, keep))
  }

  /** `df.drop(columns=cs)` */
  function DropColumns(f: Frame, cs: seq<string>): (g: Frame)
    requires Valid(f)
    ensures Valid(g) && |g.rows| == |f.rows|
    ensures forall c :: c in g.columns <==> c in f.columns && c !in cs
    ensures forall i, c :: 0 <= i < |g.rows| && c in g.columns ==> Cell(g, i, c) == Cell(f, i, c)
  {
    KeepColumns(f, c => c !in cs)
  }

  /** The rows satisfying `p`, in order (boolean indexing). */
  function Where(rows: seq<Row>, p: Row -> bool): (r: seq<Row>)
    ensures forall x :: x in r <==> x in rows && p(x)
    ensures |r| <= |rows|
    ensures forall k :: 0 <= k < |r| ==> p(r[k])
  {
    if rows == [] then []
    else if p(rows[0]) then [rows[0]] + Where(rows[1..], p)
    else Where(rows[1..], p)
  }

  lemma {:induction false} WhereConcat(a: seq<Row>, b: seq<Row>, p: Row -> bool)
    ensures Where(a + b, p) == Where(a, p) + Where(b, p)
  {
    if a != [] {
      assert (a + b)[0] == a[0];
      assert (a + b)[1..] == a[1..] + b;
      WhereConcat(a[1..], b, p);
      if p(a[0]) {
        calc {
          Where(a + b, p);
          [a[0]] + Where(a[1..] + b, p);
          [a[0]] + (Where(a[1..], p) + Where(b, p));
          ([a[0]] + Where(a[1..], p)) + Where(b, p);
        }
      }
    } else {
      assert a + b == b;
    }
  }

  lemma {:induction false} WhereAll(a: seq<Row>, p: Row -> bool)
    requires forall k :: 0 <= k < |a| ==> p(a[k])
    ensures Where(a, p) == a
  {
    if a != [] { WhereAll(a[1..], p); }
  }

  lemma {:induction false} WhereNone(a: seq<Row>, p: Row -> bool)
    requires forall k :: 0 <= k < |a| ==> !p(a[k])
    ensures Where(a, p) == []
  {
    if a != [] { WhereNone(a[1..], p); }
  }

  /** The positions of the rows satisfying `p`, ascending. */
  function Positions(rows: seq<Row>, p: Row -> bool): (ps: seq<nat>)
    ensures forall q :: 0 <= q < |ps| ==> ps[q] < |rows| && p(rows[ps[q]])
    ensures forall q, q' :: 0 <= q < q' < |ps| ==> ps[q] < ps[q']
  {
    if rows == [] then []
    else
      var prev := Positions(rows[..|rows| - 1], p);
      if p(rows[|rows| - 1]) then prev + [|rows| - 1] else prev
  }

  /** `Positions` misses no row satisfying `p`. */
  lemma {:induction false} PositionsComplete(rows: seq<Row>, p: Row -> bool, m: nat)
    requires m < |rows| && p(rows[m])
    ensures m in Positions(rows, p)
  {
    var init := rows[..|rows| - 1];
    if m < |rows| - 1 {
      assert init[m] == rows[m];
      PositionsComplete(init, p, m);
    }
  }

  /** One more row: `Where` and `Positions` grow together, or not at all. */
  lemma WhereSnoc(init: seq<Row>, x: Row, p: Row -> bool)
    ensures Where(init + [x], p) == Where(init, p) + (if p(x) then [x] else [])
    ensures Positions(init + [x], p) == Positions(init, p) + (if p(x) then [|init|] else [])
  {
    assert Where(init + [x], p) == Where(init, p) + (if p(x) then [x] else []) by {
      WhereConcat(init, [x], p);
      assert Where([x], p) == if p(x) then [x] else [];
    }
    assert (init + [x])[..|init|] == init;
  }

  /** `Where` keeps as many rows as `Positions` lists. */
  lemma {:induction false} WherePositionsLength(rows: seq<Row>, p: Row -> bool)
    ensures |Where(rows, p)| == |Positions(rows, p)|
  {
    if rows != [] {
      var init, x := rows[..|rows| - 1], rows[|rows| - 1];
      WherePositionsLength(init, p);
      assert rows == init + [x];
      WhereSnoc(init, x, p);
    }
  }

  /** The `q`-th row `Where` keeps is the row at the `q`-th position. */
  lemma {:induction false} WherePositionsAt(rows: seq<Row>, p: Row -> bool, q: nat)
    requires q < |Positions(rows, p)|
    ensures q < |Where(rows, p)| && Where(rows, p)[q] == rows[Positions(rows, p)[q]]
  {
    WherePositionsLength(rows, p);
    var n := |rows|;
    var init, x := rows[..n - 1], rows[n - 1];
    var w, ps := Where(init, p), Positions(init, p);
    var W, P := Where(rows, p), Positions(rows, p);
    assert rows == init + [x];
    assert W == w + (if p(x) then [x] else []) && P == ps + (if p(x) then [n - 1] else []) by {
      WhereSnoc(init, x, p);
    }
    assert |w| == |ps| by { WherePositionsLength(init, p); }
    var hit := q < |ps| ==> ps[q] < |init| && q < |w| && w[q] == init[ps[q]];
    assert hit by {
      if q < |ps| { WherePositionsAt(init, p, q); }
    }
    SnocAt(W, w, P, ps, rows, init, x, p(x), q);
  }

  /** One step of `WherePositionsAt`, on plain sequences. */
  lemma SnocAt(W: seq<Row>, w: seq<Row>, P: seq<nat>, ps: seq<nat>, rows: seq<Row>, init: seq<Row>, x: Row, b: bool, q: nat)
    requires rows == init + [x] && |w| == |ps| && q < |P|
    requires W == w + (if b then [x] else []) && P == ps + (if b then [|init|] else [])
    requires q < |ps| ==> ps[q] < |init| && w[q] == init[ps[q]]
    ensures q < |W| && W[q] == rows[P[q]]
  {
  }

  /** The rows `Where` keeps are the rows at `Positions`. */
  lemma WherePositions(rows: seq<Row>, p: Row -> bool)
    ensures |Where(rows, p)| == |Positions(rows, p)|
    ensures forall q :: 0 <= q < |Positions(rows, p)| ==> Where(rows, p)[q] == rows[Positions(rows, p)[q]]
  {
    WherePositionsLength(rows, p);
    forall q | 0 <= q < |Positions(rows, p)|
      ensures Where(rows, p)[q] == rows[Positions(rows, p)[q]]
    {
      WherePositionsAt(rows, p, q);
    }
  }

  function FilterRows(f: Frame, p: Row -> bool): (g: Frame)
    requires Valid(f)
    ensures Valid(g) && g.columns == f.columns
    ensures forall x :: x in g.rows <==> x in f.rows && p(x)
  {
    Frame(f.columns, Where(f.rows, p))
  }

  /** The rows whose cell under `c` satisfies `p`. */
  function RowsWhereCell(f: Frame, c: string, p: Value -> bool): (g: Frame)
    requires Valid(f) && c in f.columns
    ensures Valid(g) && g.columns == f.columns
    ensures forall x :: x in g.rows <==> x in f.rows && p(x[IndexOf(f.columns, c)])
  {
    var k := IndexOf(f.columns, c);
    FilterRows(f, (x: Row) => |x| > k && p(x[k]))
  }

  /** `df[c] = vals`: replaces the column if present, appends it otherwise. */
  function Assign(f: Frame, c: string, vals: seq<Value>): (g: Frame)
    requires Valid(f) && |vals| == |f.rows|
    ensures Valid(g) && c in g.columns && |g.rows| == |f.rows|
    ensures g.columns == if c in f.columns then f.columns else f.columns + [c]
    ensures forall i :: 0 <= i < |g.rows| ==> Cell(g, i, c) == vals[i]
    ensures forall i, d :: 0 <= i < |g.rows| && d in f.columns && d != c ==> Cell(g, i, d) == Cell(f, i, d)
  {
    if c in f.columns then
      var k := IndexOf(f.columns, c);
      Frame(f.columns, seq(|f.rows|, i requires 0 <= i < |f.rows| => f.rows[i][k := vals[i]]))
    else
      var g := Frame(f.columns + [c], seq(|f.rows|, i requires 0 <= i < |f.rows| => f.rows[i] + [vals[i]]));
      IndexOfAppend(f.columns, [c], c);
      forall d | d in f.columns { IndexOfAppend(f.columns, [c], d); }
      g
  }

  /** Applies `m` to every label (`df.columns = [m(c) for c in df.columns]`). */
  function MapLabels(cols: seq<string>, m: string -> string): (r: seq<string>)
    ensures |r| == |cols|
    ensures forall k :: 0 <= k < |cols| ==> r[k] == m(cols[k])
  {
    if cols == [] then [] else [m(cols[0])] + MapLabels(cols[1..], m)
  }

  /** `df.rename(columns={from: to})` on the labels. */
  function Rename(cols: seq<string>, from: string, to: string): (r: seq<string>)
    ensures |r| == |cols|
    ensures forall k :: 0 <= k < |cols| ==> r[k] == if cols[k] == from then to else cols[k]
  {
    MapLabels(cols, c => if c == from then to else c)
  }

  /** The renamed label sits where the old one first did, when the new name was not in use. */
  lemma RenameIndexOfTarget(cols: seq<string>, from: string, to: string)
    requires from in cols && to !in cols
    ensures to in Rename(cols, from, to)
    ensures IndexOf(Rename(cols, from, to), to) == IndexOf(cols, from)
  {
    var r := Rename(cols, from, to);
    var k := IndexOf(cols, from);
    assert r[k] == to;
    forall q | 0 <= q < k ensures r[q] != to {
      assert cols[q] != from;
    }
    IndexOfUnique(r, to, k);
  }

  /** Any other label keeps its position. */
  lemma RenameIndexOfOther(cols: seq<string>, from: string, to: string, c: string)
    requires c in cols && c != from && c != to
    ensures c in Rename(cols, from, to)
    ensures IndexOf(Rename(cols, from, to), c) == IndexOf(cols, c)
  {
    var r := Rename(cols, from, to);
    var k := IndexOf(cols, c);
    assert r[k] == c;
    IndexOfUnique(r, c, k);
  }

  /** The renamed labels are the old ones with `from` replaced by `to`. */
  lemma RenameMembers(cols: seq<string>, from: string, to: string)
    requires from in cols
    ensures forall c :: c in Rename(cols, from, to) <==> c == to || (c in cols && c != from)
  {
    var r := Rename(cols, from, to);
    forall c | c in r ensures c == to || (c in cols && c != from) {
      var k :| 0 <= k < |r| && r[k] == c;
      assert c == if cols[k] == from then to else cols[k];
    }
    assert r[IndexOf(cols, from)] == to;
    forall c | c in cols && c != from ensures c in r {
      var k := IndexOf(cols, c);
      assert r[k] == c;
    }
  }

  /** A row under renamed labels reads as the original row under the old labels. */
  lemma RenameCells(f: Frame, from: string, to: string, g: Frame, q: nat, m: nat)
    requires Valid(f) && Valid(g) && g.columns == Rename(f.columns, from, to)
    requires from in f.columns && to !in f.columns
    requires q < |g.rows| && m < |f.rows| && g.rows[q] == f.rows[m]
    ensures to in g.columns && Cell(g, q, to) == Cell(f, m, from)
    ensures forall c :: c in f.columns && c != from ==> c in g.columns && Cell(g, q, c) == Cell(f, m, c)
  {
    RenameIndexOfTarget(f.columns, from, to);
    forall c | c in f.columns && c != from ensures c in g.columns && Cell(g, q, c) == Cell(f, m, c) {
      RenameIndexOfOther(f.columns, from, to, c);
    }
  }

  /** Prefixing labels that stay distinct keeps every label's position. */
  lemma IndexOfPrefixAll(prefix: string, cols: seq<string>, c: string)
    requires c in cols
    requires forall a, b :: a in cols && b in cols && AddPrefix(prefix, a) == AddPrefix(prefix, b) ==> a == b
    ensures AddPrefix(prefix, c) in PrefixAll(prefix, cols)
    ensures IndexOf(PrefixAll(prefix, cols), AddPrefix(prefix, c)) == IndexOf(cols, c)
  {
    var r := PrefixAll(prefix, cols);
    var k := IndexOf(cols, c);
    forall q | 0 <= q < k ensures r[q] != AddPrefix(prefix, c) {
      assert cols[q] != c;
    }
    IndexOfUnique(r, AddPrefix(prefix, c), k);
  }

  function Missings(n: nat): (r: Row)
    ensures |r| == n && forall k :: 0 <= k < n ==> r[k] == Missing
  {
    seq(n, _ => Missing)
  }

  /** `df.loc[mask, c] = vals`: masked rows take the new cells; the others keep theirs, or get a missing cell in a new column. */
  function Update(f: Frame, c: string, mask: seq<bool>, vals: seq<Value>): (g: Frame)
    requires Valid(f) && |mask| == |f.rows| && |vals| == |f.rows|
    ensures Valid(g) && c in g.columns && |g.rows| == |f.rows|
    ensures g.columns == if c in f.columns then f.columns else f.columns + [c]
    ensures forall i :: 0 <= i < |g.rows| && mask[i] ==> Cell(g, i, c) == vals[i]
    ensures forall i :: 0 <= i < |g.rows| && !mask[i] ==> Cell(g, i, c) == if c in f.columns then Cell(f, i, c) else Missing
    ensures forall i, d :: 0 <= i < |g.rows| && d in f.columns && d != c ==> Cell(g, i, d) == Cell(f, i, d)
  {
    Assign(f, c, seq(|f.rows|, i requires 0 <= i < |f.rows| =>
      if mask[i] then vals[i] else if c in f.columns then Cell(f, i, c) else Missing))
  }

  /**
   * A frame held by reference: the core changes the caller's frame in place
   * (`df[c] = …`, `df.loc[mask, c] = …`, `df.columns = …`).
   */
  class Table {
    var frame: Frame

    constructor (f: Frame)
      ensures frame == f
    {
      frame := f;
    }

    /** `df[c] = vals` */
    method SetColumn(c: string, vals: seq<Value>)
      requires Valid(frame) && |vals| == |frame.rows|
      modifies this
      ensures frame == Assign(old(frame), c, vals)
    {
      frame := Assign(frame, c, vals);
    }

    /** `df.loc[mask, c] = vals` */
    method SetWhere(c: string, mask: seq<bool>, vals: seq<Value>)
      requires Valid(frame) && |mask| == |frame.rows| && |vals| == |frame.rows|
      modifies this
      ensures frame == Update(old(frame), c, mask, vals)
    {
      frame := Update(frame, c, mask, vals);
    }

    /** `df.columns = labels` */
    method SetLabels(labels: seq<string>)
      requires |labels| == |frame.columns|
      modifies this
      ensures frame == Frame(labels, old(frame).rows)
    {
      frame := Frame(labels, frame.rows);
    }
  }

  /** `pd.concat` of frames sharing their labels. */
  function ConcatRows(a: Frame, b: Frame): (g: Frame)
    requires Valid(a) && Valid(b) && a.columns == b.columns
    ensures Valid(g) && g.columns == a.columns && g.rows == a.rows + b.rows
  {
    Frame(a.columns, a.rows + b.rows)
  }
}

/**
 * `DataFrame.merge`: the join-key equality (missing matches missing), the
 * suffixes given to overlapping labels, the `_merge` indicator, and the row
 * order of inner and left joins (left order, then right order of matches).
 */
module Merging {
  import opened Values
  import opened Frames

  datatype How = InnerJoin | LeftJoin | OuterJoin

  /** The arguments of one `merge` call. */
  datatype Join = Join(
    leftOn: seq<string>,
    rightOn: seq<string>,
    how: How,
    leftSuffix: string,
    rightSuffix: string,
    indicator: bool)

  /** The two frames have the key columns the join names, pairwise. */
  predicate Joinable(l: Frame, r: Frame, j: Join) {
    Valid(l) && Valid(r) && |j.leftOn| == |j.rightOn| && HasColumns(l, j.leftOn) && HasColumns(r, j.rightOn)
  }

  /** The cells of a row under the given key labels. */
  function KeyOf(f: Frame, row: Row, keys: seq<string>): (k: seq<Value>)
    requires |row| == |f.columns| && HasColumns(f, keys)
    ensures |k| == |keys|
  {
    seq(|keys|, p requires 0 <= p < |keys| => row[IndexOf(f.columns, keys[p])])
  }

  predicate SameKey(a: seq<Value>, b: seq<Value>) {
    |a| == |b| && forall p :: 0 <= p < |a| ==> KeyEq(a[p], b[p])
  }

  function LeftKey(l: Frame, r: Frame, j: Join, i: nat): seq<Value>
    requires Joinable(l, r, j) && i < |l.rows|
  {
    KeyOf(l, l.rows[i], j.leftOn)
  }

  function RightKey(l: Frame, r: Frame, j: Join, m: nat): seq<Value>
    requires Joinable(l, r, j) && m < |r.rows|
  {
    KeyOf(r, r.rows[m], j.rightOn)
  }

  /** Indices (ascending, below `n`) of the right rows whose key matches `key`. */
  function MatchesBelow(l: Frame, r: Frame, j: Join, key: seq<Value>, n: nat): (ms: seq<nat>)
    requires Joinable(l, r, j) && n <= |r.rows|
    ensures forall p :: 0 <= p < |ms| ==> ms[p] < n && SameKey(key, RightKey(l, r, j, ms[p]))
    ensures forall m :: 0 <= m < n && SameKey(key, RightKey(l, r, j, m)) ==> m in ms
    ensures forall p, q :: 0 <= p < q < |ms| ==> ms[p] < ms[q]
  {
    if n == 0 then []
    else
      var prev := MatchesBelow(l, r, j, key, n - 1);
      if SameKey(key, RightKey(l, r, j, n - 1)) then prev + [n - 1] else prev
  }

  function Matches(l: Frame, r: Frame, j: Join, i: nat): seq<nat>
    requires Joinable(l, r, j) && i < |l.rows|
  {
    MatchesBelow(l, r, j, LeftKey(l, r, j, i), |r.rows|)
  }

  /** Key labels shared by both sides at the same position: kept once, from the left. */
  function Shared(j: Join): set<string>
    requires |j.leftOn| == |j.rightOn|
  {
    set p | 0 <= p < |j.leftOn| && j.leftOn[p] == j.rightOn[p] :: j.leftOn[p]
  }

  /** The right labels that appear in the result. */
  function RightKept(r: Frame, j: Join): seq<string>
    requires |j.leftOn| == |j.rightOn|
  {
    Keep(r.columns, NotShared(j))
  }

  /** The test for labels that are not shared keys. */
  function NotShared(j: Join): string -> bool
    requires |j.leftOn| == |j.rightOn|
  {
    c => c !in Shared(j)
  }

  /** Labels on both sides that are not shared keys; they get the suffixes. */
  function Overlap(l: Frame, r: Frame, j: Join): set<string>
    requires |j.leftOn| == |j.rightOn|
  {
    set c | c in l.columns && c in RightKept(r, j)
  }

  function Suffixed(cols: seq<string>, ov: set<string>, sfx: string): seq<string> {
    MapLabels(cols, c => if c in ov then c + sfx else c)
  }

  function IndicatorLabels(j: Join): seq<string> {
    if j.indicator then ["_merge"] else []
  }

  function IndicatorCell(j: Join, tag: string): Row {
    if j.indicator then [Text(tag)] else []
  }

  /** The result labels before the indicator: left labels, then kept right labels. */
  function DataColumns(l: Frame, r: Frame, j: Join): (cs: seq<string>)
    requires |j.leftOn| == |j.rightOn|
    ensures |cs| == |l.columns| + |RightKept(r, j)|
  {
    var ov := Overlap(l, r, j);
    Suffixed(l.columns, ov, j.leftSuffix) + Suffixed(RightKept(r, j), ov, j.rightSuffix)
  }

  function MergedColumns(l: Frame, r: Frame, j: Join): seq<string>
    requires |j.leftOn| == |j.rightOn|
  {
    DataColumns(l, r, j) + IndicatorLabels(j)
  }

  /** The cells a right row contributes. */
  function RightPart(r: Frame, j: Join, row: Row): (p: Row)
    requires Valid(r) && |j.leftOn| == |j.rightOn| && |row| == |r.columns|
    ensures |p| == |RightKept(r, j)|
  {
    var kept := RightKept(r, j);
    seq(|kept|, q requires 0 <= q < |kept| => row[IndexOf(r.columns, kept[q])])
  }

  function Combined(l: Frame, r: Frame, j: Join, lrow: Row, rrow: Row): (row: Row)
    requires Joinable(l, r, j) && |lrow| == |l.columns| && |rrow| == |r.columns|
    ensures |row| == Width(l, r, j)
  {
    lrow + RightPart(r, j, rrow) + IndicatorCell(j, "both")
  }

  function LeftOnly(l: Frame, r: Frame, j: Join, lrow: Row): (row: Row)
    requires Joinable(l, r, j) && |lrow| == |l.columns|
    ensures |row| == Width(l, r, j)
  {
    lrow + Missings(|RightKept(r, j)|) + IndicatorCell(j, "left_only")
  }

  /** A right row without partner: shared keys come from the right, other left cells are missing. */
  function RightOnly(l: Frame, r: Frame, j: Join, rrow: Row): (row: Row)
    requires Joinable(l, r, j) && |rrow| == |r.columns|
    ensures |row| == Width(l, r, j)
  {
    var left := seq(|l.columns|, k requires 0 <= k < |l.columns| =>
      if l.columns[k] in Shared(j) then SharedCell(l, r, j, rrow, l.columns[k]) else Missing);
    left + RightPart(r, j, rrow) + IndicatorCell(j, "right_only")
  }

  function SharedCell(l: Frame, r: Frame, j: Join, rrow: Row, c: string): Value
    requires Joinable(l, r, j) && |rrow| == |r.columns| && c in Shared(j)
  {
    var p :| 0 <= p < |j.leftOn| && j.leftOn[p] == j.rightOn[p] && j.leftOn[p] == c;
    assert c in j.rightOn;
    rrow[IndexOf(r.columns, c)]
  }

  /** The result rows that left row `i` gives. */
  function RowsFor(l: Frame, r: Frame, j: Join, i: nat): (rows: seq<Row>)
    requires Joinable(l, r, j) && i < |l.rows|
    ensures forall k :: 0 <= k < |rows| ==> |rows[k]| == Width(l, r, j)
  {
    var ms := Matches(l, r, j, i);
    if |ms| == 0 then
      if j.how == InnerJoin then [] else [LeftOnly(l, r, j, l.rows[i])]
    else
      seq(|ms|, p requires 0 <= p < |ms| => Combined(l, r, j, l.rows[i], r.rows[ms[p]]))
  }

  /** What each of the first `n` left rows gives, in left order. */
  function Parts(l: Frame, r: Frame, j: Join, n: nat): (ps: seq<seq<Row>>)
    requires Joinable(l, r, j) && n <= |l.rows|
    ensures |ps| == n && forall i :: 0 <= i < n ==> ps[i] == RowsFor(l, r, j, i)
  {
    seq(n, i requires 0 <= i < n => RowsFor(l, r, j, i))
  }

  /** The result rows the first `n` left rows give, in left order. */
  function LeftDriven(l: Frame, r: Frame, j: Join, n: nat): (rows: seq<Row>)
    requires Joinable(l, r, j) && n <= |l.rows|
    ensures forall k :: 0 <= k < |rows| ==> |rows[k]| == Width(l, r, j)
  {
    Flatten(Parts(l, r, j, n), Width(l, r, j))
  }

  /** Concatenation of groups of rows of one width. */
  function Flatten(ps: seq<seq<Row>>, w: nat): (rows: seq<Row>)
    requires forall p, k :: 0 <= p < |ps| && 0 <= k < |ps[p]| ==> |ps[p][k]| == w
    ensures forall k :: 0 <= k < |rows| ==> |rows[k]| == w
  {
    if ps == [] then [] else Append(Flatten(ps[..|ps| - 1], w), ps[|ps| - 1], w)
  }

  /** Concatenation of row lists of one width. */
  function Append(a: seq<Row>, b: seq<Row>, w: nat): (c: seq<Row>)
    requires forall k :: 0 <= k < |a| ==> |a[k]| == w
    requires forall k :: 0 <= k < |b| ==> |b[k]| == w
    ensures c == a + b
    ensures forall k :: 0 <= k < |c| ==> |c[k]| == w
  {
    assert forall k :: 0 <= k < |a + b| ==> (a + b)[k] == if k < |a| then a[k] else b[k - |a|];
    a + b
  }

  predicate HasLeftPartner(l: Frame, r: Frame, j: Join, m: nat)
    requires Joinable(l, r, j) && m < |r.rows|
  {
    exists i :: 0 <= i < |l.rows| && SameKey(LeftKey(l, r, j, i), RightKey(l, r, j, m))
  }

  function RightOnlyBelow(l: Frame, r: Frame, j: Join, n: nat): (rows: seq<Row>)
    requires Joinable(l, r, j) && n <= |r.rows|
    ensures forall k :: 0 <= k < |rows| ==> |rows[k]| == Width(l, r, j)
  {
    if n == 0 then []
    else
      Append(RightOnlyBelow(l, r, j, n - 1),
             if HasLeftPartner(l, r, j, n - 1) then [] else [RightOnly(l, r, j, r.rows[n - 1])],
             Width(l, r, j))
  }

  /** `left.merge(right, left_on=…, right_on=…, how=…, suffixes=…, indicator=…)` */
  function Merge(l: Frame, r: Frame, j: Join): (g: Frame)
    requires Joinable(l, r, j)
    ensures Valid(g) && g.columns == MergedColumns(l, r, j)
  {
    Frame(MergedColumns(l, r, j),
          Append(LeftDriven(l, r, j, |l.rows|),
                 if j.how == OuterJoin then RightOnlyBelow(l, r, j, |r.rows|) else [],
                 Width(l, r, j)))
  }

  /** The width every result row has. */
  function Width(l: Frame, r: Frame, j: Join): nat
    requires |j.leftOn| == |j.rightOn|
  {
    |l.columns| + |RightKept(r, j)| + |IndicatorLabels(j)|
  }

  /** No two right rows share a key (a reference table keyed by the join columns). */
  predicate RightKeysDistinct(l: Frame, r: Frame, j: Join)
    requires Joinable(l, r, j)
  {
    forall m1, m2 :: 0 <= m1 < m2 < |r.rows| ==> !SameKey(RightKey(l, r, j, m1), RightKey(l, r, j, m2))
  }

  /** Two-label keys match exactly when both cells match. */
  lemma PairKeys(a: Value, b: Value, c: Value, d: Value)
    ensures SameKey([a, b], [c, d]) <==> KeyEq(a, c) && KeyEq(b, d)
  {
    if KeyEq(a, c) && KeyEq(b, d) {
      forall p | 0 <= p < 2 ensures KeyEq([a, b][p], [c, d][p]) {
        if p == 1 { assert [a, b][p] == b && [c, d][p] == d; }
      }
    }
    if SameKey([a, b], [c, d]) {
      assert KeyEq([a, b][0], [c, d][0]) && KeyEq([a, b][1], [c, d][1]);
    }
  }

  /** A two-label left key is the row's two cells. */
  lemma LeftKeyPair(l: Frame, r: Frame, j: Join, i: nat)
    requires Joinable(l, r, j) && i < |l.rows| && |j.leftOn| == 2
    ensures LeftKey(l, r, j, i) == [Cell(l, i, j.leftOn[0]), Cell(l, i, j.leftOn[1])]
  {
  }

  /** A two-label right key is the row's two cells. */
  lemma RightKeyPair(l: Frame, r: Frame, j: Join, m: nat)
    requires Joinable(l, r, j) && m < |r.rows| && |j.rightOn| == 2
    ensures RightKey(l, r, j, m) == [Cell(r, m, j.rightOn[0]), Cell(r, m, j.rightOn[1])]
  {
  }

  /** One-label keys match exactly when the cells match. */
  lemma SingleKeys(a: Value, c: Value)
    ensures SameKey([a], [c]) <==> KeyEq(a, c)
  {
    if SameKey([a], [c]) {
      assert KeyEq([a][0], [c][0]);
    }
  }

  /** With an empty overlap no label is suffixed. */
  lemma SuffixedNone(cols: seq<string>, sfx: string)
    ensures Suffixed(cols, {}, sfx) == cols
  {
  }

  lemma SameKeyTransitive(a: seq<Value>, b: seq<Value>, c: seq<Value>)
    requires SameKey(a, b) && SameKey(a, c)
    ensures SameKey(b, c)
  {
    forall p | 0 <= p < |b| ensures KeyEq(b[p], c[p]) {
      KeyEqIsEquivalence(a[p], b[p], c[p]);
      KeyEqIsEquivalence(b[p], a[p], c[p]);
    }
  }

  /** With distinct right keys, every left row has at most one partner. */
  lemma AtMostOneMatch(l: Frame, r: Frame, j: Join, i: nat)
    requires Joinable(l, r, j) && RightKeysDistinct(l, r, j) && i < |l.rows|
    ensures |Matches(l, r, j, i)| <= 1
  {
    var ms := Matches(l, r, j, i);
    if |ms| > 1 {
      SameKeyTransitive(LeftKey(l, r, j, i), RightKey(l, r, j, ms[0]), RightKey(l, r, j, ms[1]));
      assert false;
    }
  }

  /** The partner of a left row, when the right keys are distinct. */
  function Partner(l: Frame, r: Frame, j: Join, i: nat): (m: nat)
    requires Joinable(l, r, j) && RightKeysDistinct(l, r, j) && i < |l.rows|
    requires |Matches(l, r, j, i)| > 0
    ensures m < |r.rows| && SameKey(LeftKey(l, r, j, i), RightKey(l, r, j, m))
    ensures forall m' :: 0 <= m' < |r.rows| && SameKey(LeftKey(l, r, j, i), RightKey(l, r, j, m')) ==> m' == m
  {
    AtMostOneMatch(l, r, j, i);
    Matches(l, r, j, i)[0]
  }

  predicate HasPartner(l: Frame, r: Frame, j: Join, i: nat)
    requires Joinable(l, r, j) && i < |l.rows|
  {
    |Matches(l, r, j, i)| > 0
  }

  lemma HasPartnerIff(l: Frame, r: Frame, j: Join, i: nat)
    requires Joinable(l, r, j) && i < |l.rows|
    ensures HasPartner(l, r, j, i) <==> exists m :: 0 <= m < |r.rows| && SameKey(LeftKey(l, r, j, i), RightKey(l, r, j, m))
  {
    if HasPartner(l, r, j, i) {
      var m := Matches(l, r, j, i)[0];
      assert SameKey(LeftKey(l, r, j, i), RightKey(l, r, j, m));
    }
  }

  /** The one result row of left row `i` in a left or outer join with distinct right keys. */
  function LeftJoinRow(l: Frame, r: Frame, j: Join, i: nat): Row
    requires Joinable(l, r, j) && RightKeysDistinct(l, r, j) && i < |l.rows|
  {
    if HasPartner(l, r, j, i) then Combined(l, r, j, l.rows[i], r.rows[Partner(l, r, j, i)])
    else LeftOnly(l, r, j, l.rows[i])
  }

  /** What one left row gives when the right keys are distinct. */
  lemma RowsForDistinct(l: Frame, r: Frame, j: Join, i: nat)
    requires Joinable(l, r, j) && RightKeysDistinct(l, r, j) && i < |l.rows|
    ensures RowsFor(l, r, j, i) ==
              if HasPartner(l, r, j, i) then [Combined(l, r, j, l.rows[i], r.rows[Partner(l, r, j, i)])]
              else if j.how == InnerJoin then []
              else [LeftOnly(l, r, j, l.rows[i])]
  {
    AtMostOneMatch(l, r, j, i);
  }

  /** When every group holds one row, flattening takes those rows, in order. */
  lemma {:induction false} FlattenSingletons(ps: seq<seq<Row>>, w: nat)
    requires forall p, k :: 0 <= p < |ps| && 0 <= k < |ps[p]| ==> |ps[p][k]| == w
    requires forall p :: 0 <= p < |ps| ==> |ps[p]| == 1
    ensures |Flatten(ps, w)| == |ps|
    ensures forall p :: 0 <= p < |ps| ==> Flatten(ps, w)[p] == ps[p][0]
  {
    if ps != [] {
      var init := ps[..|ps| - 1];
      FlattenSingletons(init, w);
      assert Flatten(ps, w) == Flatten(init, w) + ps[|ps| - 1];
    }
  }

  /** A left join against distinct right keys keeps the left rows, one for one and in order. */
  lemma LeftJoinRows(l: Frame, r: Frame, j: Join)
    requires Joinable(l, r, j) && RightKeysDistinct(l, r, j) && j.how != InnerJoin
    ensures |LeftDriven(l, r, j, |l.rows|)| == |l.rows|
    ensures forall i :: 0 <= i < |l.rows| ==> LeftDriven(l, r, j, |l.rows|)[i] == LeftJoinRow(l, r, j, i)
  {
    var ps := Parts(l, r, j, |l.rows|);
    forall i | 0 <= i < |l.rows| ensures ps[i] == [LeftJoinRow(l, r, j, i)] {
      RowsForDistinct(l, r, j, i);
    }
    FlattenSingletons(ps, Width(l, r, j));
  }

  /** Positions of the non-empty groups, ascending. */
  function Filled(ps: seq<seq<Row>>): (idx: seq<nat>)
    ensures forall q :: 0 <= q < |idx| ==> idx[q] < |ps| && ps[idx[q]] != []
    ensures forall p :: 0 <= p < |ps| && ps[p] != [] ==> p in idx
    ensures forall q, q' :: 0 <= q < q' < |idx| ==> idx[q] < idx[q']
  {
    if ps == [] then []
    else
      var prev := Filled(ps[..|ps| - 1]);
      if ps[|ps| - 1] != [] then prev + [|ps| - 1] else prev
  }

  /** When every group holds at most one row, flattening takes the rows of the non-empty ones. */
  lemma {:induction false} FlattenAtMostOne(ps: seq<seq<Row>>, w: nat)
    requires forall p, k :: 0 <= p < |ps| && 0 <= k < |ps[p]| ==> |ps[p][k]| == w
    requires forall p :: 0 <= p < |ps| ==> |ps[p]| <= 1
    ensures |Flatten(ps, w)| == |Filled(ps)|
    ensures forall q :: 0 <= q < |Filled(ps)| ==> Flatten(ps, w)[q] == ps[Filled(ps)[q]][0]
  {
    if ps != [] {
      var init := ps[..|ps| - 1];
      FlattenAtMostOne(init, w);
      assert Flatten(ps, w) == Flatten(init, w) + ps[|ps| - 1];
    }
  }

  /** The positions of the set flags, ascending. */
  function Marked(flags: seq<bool>): (ps: seq<nat>)
    ensures forall p :: 0 <= p < |ps| ==> ps[p] < |flags| && flags[ps[p]]
    ensures forall i :: 0 <= i < |flags| && flags[i] ==> i in ps
    ensures forall p, q :: 0 <= p < q < |ps| ==> ps[p] < ps[q]
  {
    if flags == [] then []
    else
      var prev := Marked(flags[..|flags| - 1]);
      if flags[|flags| - 1] then prev + [|flags| - 1] else prev
  }

  /** Whether each left row below `n` has a partner. */
  function PartnerFlags(l: Frame, r: Frame, j: Join, n: nat): (fs: seq<bool>)
    requires Joinable(l, r, j) && n <= |l.rows|
    ensures |fs| == n && forall i :: 0 <= i < n ==> fs[i] == HasPartner(l, r, j, i)
  {
    seq(n, i requires 0 <= i < n => HasPartner(l, r, j, i))
  }

  /** Left rows below `n` that have a partner, ascending. */
  function PartneredBelow(l: Frame, r: Frame, j: Join, n: nat): (ps: seq<nat>)
    requires Joinable(l, r, j) && n <= |l.rows|
    ensures forall p :: 0 <= p < |ps| ==> ps[p] < n && HasPartner(l, r, j, ps[p])
    ensures forall i :: 0 <= i < n && HasPartner(l, r, j, i) ==> i in ps
    ensures forall p, q :: 0 <= p < q < |ps| ==> ps[p] < ps[q]
  {
    Marked(PartnerFlags(l, r, j, n))
  }

  /** One more left row: it joins the list exactly when it has a partner. */
  lemma PartneredBelowSnoc(l: Frame, r: Frame, j: Join, n: nat)
    requires Joinable(l, r, j) && 0 < n <= |l.rows|
    ensures PartneredBelow(l, r, j, n) ==
              if HasPartner(l, r, j, n - 1) then PartneredBelow(l, r, j, n - 1) + [n - 1]
              else PartneredBelow(l, r, j, n - 1)
  {
    assert PartnerFlags(l, r, j, n)[..n - 1] == PartnerFlags(l, r, j, n - 1);
  }

  /** In an inner join the left rows that give a result row are exactly those with a partner. */
  lemma {:induction false} FilledPartners(l: Frame, r: Frame, j: Join, n: nat)
    requires Joinable(l, r, j) && j.how == InnerJoin && n <= |l.rows|
    ensures Filled(Parts(l, r, j, n)) == PartneredBelow(l, r, j, n)
  {
    if n > 0 {
      FilledPartners(l, r, j, n - 1);
      PartneredBelowSnoc(l, r, j, n);
      assert Parts(l, r, j, n)[..n - 1] == Parts(l, r, j, n - 1);
    }
  }

  /** An inner join against distinct right keys keeps, in order, the left rows that have a partner. */
  lemma InnerJoinRows(l: Frame, r: Frame, j: Join)
    requires Joinable(l, r, j) && RightKeysDistinct(l, r, j) && j.how == InnerJoin
    ensures |LeftDriven(l, r, j, |l.rows|)| == |PartneredBelow(l, r, j, |l.rows|)|
    ensures forall p :: 0 <= p < |PartneredBelow(l, r, j, |l.rows|)| ==>
              var i := PartneredBelow(l, r, j, |l.rows|)[p];
              LeftDriven(l, r, j, |l.rows|)[p] == Combined(l, r, j, l.rows[i], r.rows[Partner(l, r, j, i)])
  {
    var ps := Parts(l, r, j, |l.rows|);
    forall i | 0 <= i < |l.rows|
      ensures ps[i] == if HasPartner(l, r, j, i) then [Combined(l, r, j, l.rows[i], r.rows[Partner(l, r, j, i)])] else []
    {
      RowsForDistinct(l, r, j, i);
    }
    FlattenAtMostOne(ps, Width(l, r, j));
    FilledPartners(l, r, j, |l.rows|);
  }

  /** A left label that is not renamed, and that no renamed label turns into, keeps its position. */
  lemma MergedLeftLabel(l: Frame, r: Frame, j: Join, c: string)
    requires |j.leftOn| == |j.rightOn| && c in l.columns && c !in Overlap(l, r, j)
    requires forall d :: d in Overlap(l, r, j) ==> d + j.leftSuffix != c
    ensures c in MergedColumns(l, r, j)
    ensures IndexOf(MergedColumns(l, r, j), c) == IndexOf(l.columns, c)
  {
    var ov := Overlap(l, r, j);
    var left := Suffixed(l.columns, ov, j.leftSuffix);
    var k := IndexOf(l.columns, c);
    forall q | 0 <= q < k ensures left[q] != c {
      assert l.columns[q] != c;
    }
    IndexOfUnique(left, c, k);
    IndexOfAppendLeft(left, Suffixed(RightKept(r, j), ov, j.rightSuffix), c);
    IndexOfAppendLeft(DataColumns(l, r, j), IndicatorLabels(j), c);
  }

  /**
   * A kept right label absent on the left, and that no renamed label turns
   * into, sits after the left labels at its position among the kept ones.
   */
  lemma MergedRightLabel(l: Frame, r: Frame, j: Join, c: string)
    requires |j.leftOn| == |j.rightOn| && c in RightKept(r, j) && c !in l.columns
    requires forall d :: d in Overlap(l, r, j) ==> d + j.leftSuffix != c && d + j.rightSuffix != c
    ensures c in MergedColumns(l, r, j)
    ensures IndexOf(MergedColumns(l, r, j), c) == |l.columns| + IndexOf(RightKept(r, j), c)
  {
    var ov := Overlap(l, r, j);
    var kept := RightKept(r, j);
    var left := Suffixed(l.columns, ov, j.leftSuffix);
    var right := Suffixed(kept, ov, j.rightSuffix);
    assert c !in ov;
    assert c !in left by {
      forall q | 0 <= q < |left| ensures left[q] != c {
        assert l.columns[q] != c;
      }
    }
    var k := IndexOf(kept, c);
    forall q | 0 <= q < k ensures right[q] != c {
      assert kept[q] != c;
    }
    IndexOfUnique(right, c, k);
    IndexOfAppendRight(left, right, c);
    IndexOfAppendLeft(DataColumns(l, r, j), IndicatorLabels(j), c);
  }

  /** The indicator label comes last when no data label is called `_merge`. */
  lemma MergedIndicatorLabel(l: Frame, r: Frame, j: Join)
    requires |j.leftOn| == |j.rightOn| && j.indicator
    requires "_merge" !in DataColumns(l, r, j)
    ensures "_merge" in MergedColumns(l, r, j)
    ensures IndexOf(MergedColumns(l, r, j), "_merge") == Width(l, r, j) - 1
  {
    IndexOfAppendRight(DataColumns(l, r, j), IndicatorLabels(j), "_merge");
  }

  /** One more left row appends its rows. */
  lemma LeftDrivenStep(l: Frame, r: Frame, j: Join, n: nat)
    requires Joinable(l, r, j) && 0 < n <= |l.rows|
    ensures LeftDriven(l, r, j, n) == LeftDriven(l, r, j, n - 1) + RowsFor(l, r, j, n - 1)
  {
    assert Parts(l, r, j, n)[..n - 1] == Parts(l, r, j, n - 1);
  }

  /** A property of every row of every group holds of every flattened row. */
  lemma {:induction false} FlattenAll(ps: seq<seq<Row>>, w: nat, P: Row -> bool)
    requires forall p, k :: 0 <= p < |ps| && 0 <= k < |ps[p]| ==> |ps[p][k]| == w
    requires forall p, k :: 0 <= p < |ps| && 0 <= k < |ps[p]| ==> P(ps[p][k])
    ensures forall k :: 0 <= k < |Flatten(ps, w)| ==> P(Flatten(ps, w)[k])
  {
    if ps != [] {
      var init := ps[..|ps| - 1];
      FlattenAll(init, w, P);
      ConcatIndex(Flatten(init, w), ps[|ps| - 1], Flatten(ps, w));
    }
  }

  /** Indexing into a concatenation of rows. */
  lemma ConcatIndex(a: seq<Row>, b: seq<Row>, c: seq<Row>)
    requires c == a + b
    ensures |c| == |a| + |b|
    ensures forall k :: 0 <= k < |a| ==> c[k] == a[k]
    ensures forall k :: 0 <= k < |b| ==> c[|a| + k] == b[k]
  {
  }

  /** The indicator cell of a result row, when the indicator is on. */
  predicate Tagged(j: Join, w: nat, tag: string, row: Row) {
    j.indicator && |row| == w && w > 0 && row[w - 1] == Text(tag)
  }

  /** Left-driven rows are tagged `both` or `left_only`; the missing right rows `right_only`. */
  lemma MergeTags(l: Frame, r: Frame, j: Join)
    requires Joinable(l, r, j) && j.indicator
    ensures forall k :: 0 <= k < |LeftDriven(l, r, j, |l.rows|)| ==>
              var row := LeftDriven(l, r, j, |l.rows|)[k];
              Tagged(j, Width(l, r, j), "both", row) || Tagged(j, Width(l, r, j), "left_only", row)
    ensures forall k :: 0 <= k < |RightOnlyBelow(l, r, j, |r.rows|)| ==>
              Tagged(j, Width(l, r, j), "right_only", RightOnlyBelow(l, r, j, |r.rows|)[k])
  {
    var w := Width(l, r, j);
    var P := (row: Row) => Tagged(j, w, "both", row) || Tagged(j, w, "left_only", row);
    var ps := Parts(l, r, j, |l.rows|);
    forall p, k | 0 <= p < |ps| && 0 <= k < |ps[p]| ensures P(ps[p][k]) {
    }
    FlattenAll(ps, w, P);
    RightOnlyTags(l, r, j, |r.rows|);
  }

  /** Unless the join is inner, every left row gives at least one row. */
  lemma {:induction false} LeftDrivenCovers(l: Frame, r: Frame, j: Join, n: nat)
    requires Joinable(l, r, j) && j.how != InnerJoin && n <= |l.rows|
    ensures |LeftDriven(l, r, j, n)| >= n
  {
    if n > 0 {
      LeftDrivenCovers(l, r, j, n - 1);
      var before := |LeftDriven(l, r, j, n - 1)|;
      var step := |RowsFor(l, r, j, n - 1)|;
      assert |LeftDriven(l, r, j, n)| == before + step by { LeftDrivenStep(l, r, j, n); }
      assert step >= 1 by { RowsForNonEmpty(l, r, j, n - 1); }
    }
  }

  /** Unless the join is inner, a left row gives a row at least. */
  lemma RowsForNonEmpty(l: Frame, r: Frame, j: Join, i: nat)
    requires Joinable(l, r, j) && j.how != InnerJoin && i < |l.rows|
    ensures |RowsFor(l, r, j, i)| >= 1
  {
  }

  /**
   * The indicator column in row order: the rows the left rows give come
   * first, tagged `both` or `left_only`; the others are tagged `right_only`.
   */
  lemma MergeIndicator(l: Frame, r: Frame, j: Join)
    requires Joinable(l, r, j) && j.indicator
    ensures var g := Merge(l, r, j);
            var w := Width(l, r, j);
            var n := |LeftDriven(l, r, j, |l.rows|)|;
            && n <= |g.rows|
            && (forall k :: 0 <= k < n ==> Tagged(j, w, "both", g.rows[k]) || Tagged(j, w, "left_only", g.rows[k]))
            && (forall k :: n <= k < |g.rows| ==> Tagged(j, w, "right_only", g.rows[k]))
  {
    MergeTags(l, r, j);
    var g := Merge(l, r, j);
    var ld := LeftDriven(l, r, j, |l.rows|);
    var tail := if j.how == OuterJoin then RightOnlyBelow(l, r, j, |r.rows|) else [];
    ConcatIndex(ld, tail, g.rows);
    forall k | |ld| <= k < |g.rows| ensures Tagged(j, Width(l, r, j), "right_only", g.rows[k]) {
      assert g.rows[k] == tail[k - |ld|];
    }
  }

  /** The `_merge` cells when no data label is called `_merge`. */
  lemma MergeIndicatorCells(l: Frame, r: Frame, j: Join)
    requires Joinable(l, r, j) && j.indicator && "_merge" !in DataColumns(l, r, j)
    ensures var g := Merge(l, r, j);
            var n := |LeftDriven(l, r, j, |l.rows|)|;
            && "_merge" in g.columns && n <= |g.rows|
            && (forall i :: 0 <= i < n ==> Cell(g, i, "_merge") == Text("both") || Cell(g, i, "_merge") == Text("left_only"))
            && (forall i :: n <= i < |g.rows| ==> Cell(g, i, "_merge") == Text("right_only"))
  {
    MergedIndicatorLabel(l, r, j);
    MergeIndicator(l, r, j);
    TaggedCells(Merge(l, r, j), j, Width(l, r, j), |LeftDriven(l, r, j, |l.rows|)|);
  }

  /** The tags at the last position are the cells of the indicator column. */
  lemma TaggedCells(g: Frame, j: Join, w: nat, n: nat)
    requires Valid(g) && "_merge" in g.columns && IndexOf(g.columns, "_merge") == w - 1 && n <= |g.rows|
    requires forall k :: 0 <= k < n ==> Tagged(j, w, "both", g.rows[k]) || Tagged(j, w, "left_only", g.rows[k])
    requires forall k :: n <= k < |g.rows| ==> Tagged(j, w, "right_only", g.rows[k])
    ensures forall i :: 0 <= i < n ==> Cell(g, i, "_merge") == Text("both") || Cell(g, i, "_merge") == Text("left_only")
    ensures forall i :: n <= i < |g.rows| ==> Cell(g, i, "_merge") == Text("right_only")
  {
  }

  lemma {:induction false} RightOnlyTags(l: Frame, r: Frame, j: Join, n: nat)
    requires Joinable(l, r, j) && j.indicator && n <= |r.rows|
    ensures forall k :: 0 <= k < |RightOnlyBelow(l, r, j, n)| ==>
              Tagged(j, Width(l, r, j), "right_only", RightOnlyBelow(l, r, j, n)[k])
  {
    if n > 0 {
      RightOnlyTags(l, r, j, n - 1);
      var a := RightOnlyBelow(l, r, j, n - 1);
      var b := if HasLeftPartner(l, r, j, n - 1) then [] else [RightOnly(l, r, j, r.rows[n - 1])];
      ConcatIndex(a, b, RightOnlyBelow(l, r, j, n));
    }
  }

  /** A left join against distinct right keys gives exactly one row per left row. */
  lemma LeftJoinCount(l: Frame, r: Frame, j: Join)
    requires Joinable(l, r, j) && RightKeysDistinct(l, r, j) && j.how == LeftJoin
    ensures |Merge(l, r, j).rows| == |l.rows|
  {
    LeftJoinRows(l, r, j);
    ConcatIndex(LeftDriven(l, r, j, |l.rows|), [], Merge(l, r, j).rows);
  }

  /** Row `i` of a left or outer join against distinct right keys is left row `i` joined. */
  lemma LeftJoinRowAt(l: Frame, r: Frame, j: Join, i: nat)
    requires Joinable(l, r, j) && RightKeysDistinct(l, r, j) && j.how != InnerJoin && i < |l.rows|
    ensures i < |Merge(l, r, j).rows| && Merge(l, r, j).rows[i] == LeftJoinRow(l, r, j, i)
  {
    LeftJoinRows(l, r, j);
    var tail := if j.how == OuterJoin then RightOnlyBelow(l, r, j, |r.rows|) else [];
    ConcatIndex(LeftDriven(l, r, j, |l.rows|), tail, Merge(l, r, j).rows);
  }

  /** A left label that is not suffixed keeps the left row's cell. */
  lemma LeftJoinLeftCell(l: Frame, r: Frame, j: Join, i: nat, c: string)
    requires Joinable(l, r, j) && RightKeysDistinct(l, r, j) && j.how != InnerJoin && i < |l.rows|
    requires c in l.columns && c !in Overlap(l, r, j)
    requires forall d :: d in Overlap(l, r, j) ==> d + j.leftSuffix != c
    ensures i < |Merge(l, r, j).rows| && c in Merge(l, r, j).columns
    ensures Cell(Merge(l, r, j), i, c) == Cell(l, i, c)
  {
    LeftJoinRowAt(l, r, j, i);
    MergedLeftLabel(l, r, j, c);
  }

  /** A kept right label holds the partner's cell, or a missing cell when there is no partner. */
  lemma LeftJoinRightCell(l: Frame, r: Frame, j: Join, i: nat, c: string)
    requires Joinable(l, r, j) && RightKeysDistinct(l, r, j) && j.how != InnerJoin && i < |l.rows|
    requires c in RightKept(r, j) && c !in l.columns
    requires forall d :: d in Overlap(l, r, j) ==> d + j.leftSuffix != c && d + j.rightSuffix != c
    ensures i < |Merge(l, r, j).rows| && c in Merge(l, r, j).columns && c in r.columns
    ensures Cell(Merge(l, r, j), i, c) == if HasPartner(l, r, j, i) then Cell(r, Partner(l, r, j, i), c) else Missing
  {
    LeftJoinRowAt(l, r, j, i);
    MergedRightLabel(l, r, j, c);
    var kept := RightKept(r, j);
    var q := IndexOf(kept, c);
    if HasPartner(l, r, j, i) {
      var rrow := r.rows[Partner(l, r, j, i)];
      assert RightPart(r, j, rrow)[q] == rrow[IndexOf(r.columns, c)];
    }
  }

  /** Row `p` of an inner join against distinct right keys is the `p`-th partnered left row joined. */
  lemma InnerJoinRowAt(l: Frame, r: Frame, j: Join, p: nat)
    requires Joinable(l, r, j) && RightKeysDistinct(l, r, j) && j.how == InnerJoin
    requires p < |PartneredBelow(l, r, j, |l.rows|)|
    ensures var i := PartneredBelow(l, r, j, |l.rows|)[p];
            && |Merge(l, r, j).rows| == |PartneredBelow(l, r, j, |l.rows|)|
            && Merge(l, r, j).rows[p] == Combined(l, r, j, l.rows[i], r.rows[Partner(l, r, j, i)])
  {
    InnerJoinRows(l, r, j);
  }

  /** An empty suffix leaves every label as it is. */
  lemma SuffixedEmpty(cols: seq<string>, ov: set<string>)
    ensures Suffixed(cols, ov, "") == cols
  {
    var s := Suffixed(cols, ov, "");
    forall k | 0 <= k < |cols| ensures s[k] == cols[k] {
      assert cols[k] + "" == cols[k];
    }
  }

  /** With an empty left suffix every left label keeps its position. */
  lemma MergedLeftUnsuffixed(l: Frame, r: Frame, j: Join, c: string)
    requires |j.leftOn| == |j.rightOn| && j.leftSuffix == "" && c in l.columns
    ensures c in MergedColumns(l, r, j)
    ensures IndexOf(MergedColumns(l, r, j), c) == IndexOf(l.columns, c)
  {
    var ov := Overlap(l, r, j);
    SuffixedEmpty(l.columns, ov);
    IndexOfAppendLeft(l.columns, Suffixed(RightKept(r, j), ov, j.rightSuffix), c);
    IndexOfAppendLeft(DataColumns(l, r, j), IndicatorLabels(j), c);
  }

  /**
   * A right label present on both sides gets the right suffix and sits after
   * the left labels, at its position among the kept ones, when no label
   * before it turns into the same name.
   */
  lemma MergedSuffixedRight(l: Frame, r: Frame, j: Join, c: string)
    requires |j.leftOn| == |j.rightOn| && c in Overlap(l, r, j)
    requires c + j.rightSuffix !in Suffixed(l.columns, Overlap(l, r, j), j.leftSuffix)
    requires forall q :: 0 <= q < IndexOf(RightKept(r, j), c) ==>
               Suffixed(RightKept(r, j), Overlap(l, r, j), j.rightSuffix)[q] != c + j.rightSuffix
    ensures c + j.rightSuffix in MergedColumns(l, r, j)
    ensures IndexOf(MergedColumns(l, r, j), c + j.rightSuffix) == |l.columns| + IndexOf(RightKept(r, j), c)
  {
    var ov := Overlap(l, r, j);
    var kept := RightKept(r, j);
    var right := Suffixed(kept, ov, j.rightSuffix);
    var k := IndexOf(kept, c);
    assert right[k] == c + j.rightSuffix;
    IndexOfUnique(right, c + j.rightSuffix, k);
    IndexOfAppendRight(Suffixed(l.columns, ov, j.leftSuffix), right, c + j.rightSuffix);
    IndexOfAppendLeft(DataColumns(l, r, j), IndicatorLabels(j), c + j.rightSuffix);
  }

  /** A joined row holds the left row first, then the kept right cells. */
  lemma CombinedCells(l: Frame, r: Frame, j: Join, lrow: Row, rrow: Row)
    requires Joinable(l, r, j) && |lrow| == |l.columns| && |rrow| == |r.columns|
    ensures forall k :: 0 <= k < |l.columns| ==> Combined(l, r, j, lrow, rrow)[k] == lrow[k]
    ensures forall q :: 0 <= q < |RightKept(r, j)| ==>
              Combined(l, r, j, lrow, rrow)[|l.columns| + q] == rrow[IndexOf(r.columns, RightKept(r, j)[q])]
  {
    var part := RightPart(r, j, rrow);
    var row := Combined(l, r, j, lrow, rrow);
    assert row == lrow + part + IndicatorCell(j, "both");
    forall q | 0 <= q < |RightKept(r, j)|
      ensures row[|l.columns| + q] == rrow[IndexOf(r.columns, RightKept(r, j)[q])]
    {
      assert row[|l.columns| + q] == part[q];
    }
  }

  /** The row joins some left row with some right row of the same key. */
  ghost predicate JoinedRow(l: Frame, r: Frame, j: Join, row: Row)
    requires Joinable(l, r, j)
  {
    exists i, m :: 0 <= i < |l.rows| && 0 <= m < |r.rows| &&
      SameKey(LeftKey(l, r, j, i), RightKey(l, r, j, m)) && row == Combined(l, r, j, l.rows[i], r.rows[m])
  }

  /** In an inner join, every row a left row gives joins it with a matching right row. */
  lemma InnerRowsForJoined(l: Frame, r: Frame, j: Join, i: nat)
    requires Joinable(l, r, j) && j.how == InnerJoin && i < |l.rows|
    ensures forall k :: 0 <= k < |RowsFor(l, r, j, i)| ==> JoinedRow(l, r, j, RowsFor(l, r, j, i)[k])
  {
    var ms := Matches(l, r, j, i);
    forall k | 0 <= k < |RowsFor(l, r, j, i)| ensures JoinedRow(l, r, j, RowsFor(l, r, j, i)[k]) {
      var m := ms[k];
      assert m < |r.rows| && SameKey(LeftKey(l, r, j, i), RightKey(l, r, j, m));
      assert RowsFor(l, r, j, i)[k] == Combined(l, r, j, l.rows[i], r.rows[m]);
    }
  }

  /** Every row of an inner join joins some left row with some right row. */
  lemma InnerJoinCombines(l: Frame, r: Frame, j: Join)
    requires Joinable(l, r, j) && j.how == InnerJoin
    ensures forall k :: 0 <= k < |Merge(l, r, j).rows| ==> JoinedRow(l, r, j, Merge(l, r, j).rows[k])
  {
    var ps := Parts(l, r, j, |l.rows|);
    forall p | 0 <= p < |ps| ensures forall k :: 0 <= k < |ps[p]| ==> JoinedRow(l, r, j, ps[p][k]) {
      InnerRowsForJoined(l, r, j, p);
    }
    FlattenAll(ps, Width(l, r, j), row => JoinedRow(l, r, j, row));
    ConcatIndex(LeftDriven(l, r, j, |l.rows|), [], Merge(l, r, j).rows);
  }
}

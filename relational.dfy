/** The relational primitives the pipelines take from pandas: the null-key
    filter df[df[key].notna()], the left merge df.merge(other, on=key,
    how="left") and the column projection df[cols]. */
module Relational {
  import opened Tables

  // ---------------------------------------------------------------------
  // Null-key filter

  /** The rows whose `key` is not null, in their original order. */
  function NonNullRows(rows: seq<Row>, key: string): (v: seq<Row>)
    ensures |v| == |rows| - CountNull(rows, key)
    ensures forall r :: r in v ==> Cell(r, key) != Null && r in rows
  {
    if rows == [] then []
    else
      var init, last := rows[..|rows| - 1], rows[|rows| - 1];
      NonNullRows(init, key) + (if Cell(last, key) != Null then [last] else [])
  }

  /** The filter keeps order and keeps every row with a non-null key. */
  lemma {:induction false} NonNullRowsExact(rows: seq<Row>, key: string)
    ensures IsSubsequence(NonNullRows(rows, key), rows)
    ensures forall r :: r in rows && Cell(r, key) != Null ==> r in NonNullRows(rows, key)
  {
    if rows != [] {
      var init, last := rows[..|rows| - 1], rows[|rows| - 1];
      NonNullRowsExact(init, key);
      assert rows == init + [last];
      if Cell(last, key) != Null {
        SubsequenceAppend(NonNullRows(init, key), init, last);
      } else {
        assert NonNullRows(rows, key) == NonNullRows(init, key);
        SubsequenceExtend(NonNullRows(init, key), init, last);
      }
    }
  }

  /** df[df[key].notna()]: fails with a KeyError when the column is absent. */
  function FilterNullKeys(t: Table, key: string): (res: Result<Table>)
    ensures key !in t.columns <==> res == Failure(MissingColumn(key))
    ensures res.Success? ==>
      (res.value.columns == t.columns && |t.rows| - |res.value.rows| == CountNull(t.rows, key))
  {
    if key !in t.columns then Failure(MissingColumn(key))
    else Success(Table(t.columns, NonNullRows(t.rows, key)))
  }

  // ---------------------------------------------------------------------
  // Left merge

  /** The right rows whose key equals `v`, in their original order. pandas
      also matches a null key with a null key. */
  function Matches(rrows: seq<Row>, key: string, v: Value): (ms: seq<Row>)
    ensures |ms| <= |rrows|
    ensures forall m :: m in ms ==> m in rrows && Cell(m, key) == v
  {
    if rrows == [] then []
    else (if Cell(rrows[0], key) == v then [rrows[0]] else []) + Matches(rrows[1..], key, v)
  }

  /** Every right row carrying the key is among the matches. */
  lemma {:induction false} MatchesComplete(rrows: seq<Row>, key: string, v: Value)
    ensures forall i :: 0 <= i < |rrows| && Cell(rrows[i], key) == v ==> rrows[i] in Matches(rrows, key, v)
  {
    if rrows != [] {
      var rest := rrows[1..];
      MatchesComplete(rest, key, v);
      forall i | 1 <= i < |rrows| && Cell(rrows[i], key) == v ensures rrows[i] in Matches(rrows, key, v) {
        assert rrows[i] == rest[i - 1];
      }
    }
  }

  lemma {:induction false} MatchesNone(rrows: seq<Row>, key: string, v: Value)
    requires forall i :: 0 <= i < |rrows| ==> Cell(rrows[i], key) != v
    ensures Matches(rrows, key, v) == []
  {
    if rrows != [] {
      MatchesNone(rrows[1..], key, v);
    }
  }

  /** A right side without repeated keys matches each left row at most once. */
  lemma {:induction false} MatchesAtMostOne(rrows: seq<Row>, key: string, v: Value)
    requires KeysDistinct(rrows, key)
    ensures |Matches(rrows, key, v)| <= 1
  {
    if rrows != [] {
      var rest := rrows[1..];
      assert KeysDistinct(rest, key) by {
        forall i, j | 0 <= i < j < |rest| ensures Cell(rest[i], key) != Cell(rest[j], key) {
          assert rest[i] == rrows[i + 1] && rest[j] == rrows[j + 1];
        }
      }
      if Cell(rrows[0], key) == v {
        forall i | 0 <= i < |rest| ensures Cell(rest[i], key) != v {
          assert rest[i] == rrows[i + 1];
        }
        MatchesNone(rest, key, v);
      } else {
        MatchesAtMostOne(rest, key, v);
      }
    }
  }

  /** pandas names an overlapping non-key column c as c_x on the left ... */
  function LeftName(c: string, rcols: seq<string>, key: string): string
  {
    if c != key && c in rcols then c + "_x" else c
  }

  /** ... and as c_y on the right. */
  function RightName(c: string, lcols: seq<string>): string
  {
    if c in lcols then c + "_y" else c
  }

  /** The right table's columns other than the merge key. */
  function NonKey(cols: seq<string>, key: string): (ks: seq<string>)
    ensures forall c :: c in ks <==> c in cols && c != key
  {
    if cols == [] then []
    else (if cols[0] == key then [] else [cols[0]]) + NonKey(cols[1..], key)
  }

  /** The merged table's columns: the left columns (the key among them, at
      its left position), then the right columns other than the key. */
  function JoinColumns(lcols: seq<string>, rcols: seq<string>, key: string): (cs: seq<string>)
    ensures |cs| == |lcols| + |NonKey(rcols, key)|
  {
    seq(|lcols|, i requires 0 <= i < |lcols| => LeftName(lcols[i], rcols, key))
    + seq(|NonKey(rcols, key)|, j requires 0 <= j < |NonKey(rcols, key)| =>
          RightName(NonKey(rcols, key)[j], lcols))
  }

  /** The row that gives names[i] the value vals[i]; a later name wins. */
  function ZipRow(names: seq<string>, vals: seq<Value>): (r: Row)
    requires |names| == |vals|
    ensures r.Keys == set c | c in names
  {
    if names == [] then map[]
    else ZipRow(names[..|names| - 1], vals[..|vals| - 1])[names[|names| - 1] := vals[|vals| - 1]]
  }

  lemma {:induction false} ZipRowAt(names: seq<string>, vals: seq<Value>, i: nat)
    requires |names| == |vals| && Distinct(names) && i < |names|
    ensures Cell(ZipRow(names, vals), names[i]) == vals[i]
  {
    var n := |names| - 1;
    if i < n {
      assert Distinct(names[..n]) by {
        forall a, b | 0 <= a < b < n ensures names[..n][a] != names[..n][b] {
          assert names[..n][a] == names[a] && names[..n][b] == names[b];
        }
      }
      ZipRowAt(names[..n], vals[..n], i);
      assert names[i] != names[n];
    }
  }

  /** One output row: a left row, extended by a matching right row or by nulls. */
  function Combine(lr: Row, rr: Option<Row>, lcols: seq<string>, rcols: seq<string>, key: string): Row
  {
    ZipRow(JoinColumns(lcols, rcols, key), LeftValues(lr, lcols) + RightValues(rr, NonKey(rcols, key)))
  }

  function LeftValues(lr: Row, lcols: seq<string>): (vs: seq<Value>)
    ensures |vs| == |lcols| && forall i :: 0 <= i < |lcols| ==> vs[i] == Cell(lr, lcols[i])
  {
    seq(|lcols|, i requires 0 <= i < |lcols| => Cell(lr, lcols[i]))
  }

  /** The right row's values, or nulls when there is no matching right row. */
  function RightCell(rr: Option<Row>, c: string): Value
  {
    match rr
    case Some(r) => Cell(r, c)
    case None => Null
  }

  function RightValues(rr: Option<Row>, rk: seq<string>): (vs: seq<Value>)
    ensures |vs| == |rk| && forall j :: 0 <= j < |rk| ==> vs[j] == RightCell(rr, rk[j])
  {
    seq(|rk|, j requires 0 <= j < |rk| => RightCell(rr, rk[j]))
  }

  /** The output rows contributed by one left row: one per matching right
      row, in right order, or a single null-extended row when none matches. */
  function JoinOne(lr: Row, lcols: seq<string>, r: Table, key: string): (out: seq<Row>)
  {
    var ms := Matches(r.rows, key, Cell(lr, key));
    if ms == [] then [Combine(lr, None, lcols, r.columns, key)]
    else Pairs(lr, ms, lcols, r.columns, key)
  }

  /** The left row combined with each of the matching right rows, in order. */
  function Pairs(lr: Row, ms: seq<Row>, lcols: seq<string>, rcols: seq<string>, key: string): (out: seq<Row>)
    ensures |out| == |ms| && forall k :: 0 <= k < |ms| ==> out[k] == Combine(lr, Some(ms[k]), lcols, rcols, key)
  {
    if ms == [] then [] else [Combine(lr, Some(ms[0]), lcols, rcols, key)] + Pairs(lr, ms[1..], lcols, rcols, key)
  }

  /** The output rows of the merge, left row by left row. */
  function JoinRows(lrows: seq<Row>, lcols: seq<string>, r: Table, key: string): seq<Row>
  {
    if lrows == [] then [] else JoinOne(lrows[0], lcols, r, key) + JoinRows(lrows[1..], lcols, r, key)
  }

  /** df.merge(other, on=key, how="left"); a KeyError when either side lacks the key. */
  function LeftJoin(l: Table, r: Table, key: string): (res: Result<Table>)
    ensures res.Failure? <==> key !in l.columns || key !in r.columns
    ensures res.Success? ==> res.value.columns == JoinColumns(l.columns, r.columns, key)
  {
    if key !in l.columns || key !in r.columns then Failure(MissingColumn(key))
    else Success(Table(JoinColumns(l.columns, r.columns, key), JoinRows(l.rows, l.columns, r, key)))
  }

  /** How many output rows one left row yields. */
  function Multiplicity(lr: Row, rrows: seq<Row>, key: string): (m: nat)
    ensures m >= 1
  {
    var k := |Matches(rrows, key, Cell(lr, key))|;
    if k == 0 then 1 else k
  }

  function TotalMultiplicity(lrows: seq<Row>, rrows: seq<Row>, key: string): (m: nat)
    ensures m >= |lrows|
  {
    if lrows == [] then 0 else Multiplicity(lrows[0], rrows, key) + TotalMultiplicity(lrows[1..], rrows, key)
  }

  /** The row-count law of a left join: every left row yields one row per
      matching right row, or exactly one row when nothing matches. */
  lemma {:induction false} JoinRowCount(lrows: seq<Row>, lcols: seq<string>, r: Table, key: string)
    ensures |JoinRows(lrows, lcols, r, key)| == TotalMultiplicity(lrows, r.rows, key)
  {
    if lrows != [] {
      JoinRowCount(lrows[1..], lcols, r, key);
    }
  }

  /** The merge works row by row: the output for a concatenation of left
      tables is the concatenation of the outputs, so left order is kept. */
  lemma {:induction false} JoinRowsAppend(a: seq<Row>, b: seq<Row>, lcols: seq<string>, r: Table, key: string)
    ensures JoinRows(a + b, lcols, r, key) == JoinRows(a, lcols, r, key) + JoinRows(b, lcols, r, key)
  {
    if a == [] {
      assert a + b == b;
    } else {
      assert (a + b)[0] == a[0];
      assert (a + b)[1..] == a[1..] + b;
      JoinRowsAppend(a[1..], b, lcols, r, key);
    }
  }

  /** The output columns do not collide (no c_x next to a column already named c_x). */
  predicate NoNameClash(lcols: seq<string>, rcols: seq<string>, key: string)
  {
    Distinct(JoinColumns(lcols, rcols, key))
  }

  /** `out` carries the values of `lr` under the left names. */
  predicate ExtendsLeft(out: Row, lr: Row, lcols: seq<string>, rcols: seq<string>, key: string)
  {
    forall i :: 0 <= i < |lcols| ==> Cell(out, LeftName(lcols[i], rcols, key)) == Cell(lr, lcols[i])
  }

  /** `out` carries the values of `rr` (nulls when absent) under the right names. */
  predicate ExtendsRight(out: Row, rr: Option<Row>, lcols: seq<string>, rcols: seq<string>, key: string)
  {
    var rk := NonKey(rcols, key);
    forall j :: 0 <= j < |rk| ==> Cell(out, RightName(rk[j], lcols)) == RightCell(rr, rk[j])
  }

  lemma CombineContents(lr: Row, rr: Option<Row>, lcols: seq<string>, rcols: seq<string>, key: string)
    requires NoNameClash(lcols, rcols, key)
    ensures ExtendsLeft(Combine(lr, rr, lcols, rcols, key), lr, lcols, rcols, key)
    ensures ExtendsRight(Combine(lr, rr, lcols, rcols, key), rr, lcols, rcols, key)
  {
    CombineLeft(lr, rr, lcols, rcols, key);
    CombineRight(lr, rr, lcols, rcols, key);
  }

  lemma CombineLeft(lr: Row, rr: Option<Row>, lcols: seq<string>, rcols: seq<string>, key: string)
    requires NoNameClash(lcols, rcols, key)
    ensures ExtendsLeft(Combine(lr, rr, lcols, rcols, key), lr, lcols, rcols, key)
  {
    var names := JoinColumns(lcols, rcols, key);
    var vals := LeftValues(lr, lcols) + RightValues(rr, NonKey(rcols, key));
    forall i | 0 <= i < |lcols|
      ensures Cell(Combine(lr, rr, lcols, rcols, key), LeftName(lcols[i], rcols, key)) == Cell(lr, lcols[i])
    {
      ZipRowAt(names, vals, i);
      assert names[i] == LeftName(lcols[i], rcols, key);
      assert vals[i] == LeftValues(lr, lcols)[i];
    }
  }

  lemma CombineRight(lr: Row, rr: Option<Row>, lcols: seq<string>, rcols: seq<string>, key: string)
    requires NoNameClash(lcols, rcols, key)
    ensures ExtendsRight(Combine(lr, rr, lcols, rcols, key), rr, lcols, rcols, key)
  {
    var rk := NonKey(rcols, key);
    var names := JoinColumns(lcols, rcols, key);
    var vals := LeftValues(lr, lcols) + RightValues(rr, rk);
    forall j | 0 <= j < |rk|
      ensures Cell(Combine(lr, rr, lcols, rcols, key), RightName(rk[j], lcols)) == RightCell(rr, rk[j])
    {
      ZipRowAt(names, vals, |lcols| + j);
      assert names[|lcols| + j] == RightName(rk[j], lcols);
      assert vals[|lcols| + j] == RightValues(rr, rk)[j];
    }
  }

  /** What one left row contributes: its block has Multiplicity rows, each
      carrying the left row; with no match the single row is null-extended. */
  lemma {:induction false} JoinOneContents(lr: Row, lcols: seq<string>, r: Table, key: string)
    requires NoNameClash(lcols, r.columns, key)
    ensures |JoinOne(lr, lcols, r, key)| == Multiplicity(lr, r.rows, key)
    ensures forall out :: out in JoinOne(lr, lcols, r, key) ==> ExtendsLeft(out, lr, lcols, r.columns, key)
    ensures Matches(r.rows, key, Cell(lr, key)) == [] ==>
      ExtendsRight(JoinOne(lr, lcols, r, key)[0], None, lcols, r.columns, key)
    ensures forall k :: 0 <= k < |Matches(r.rows, key, Cell(lr, key))| ==>
      ExtendsRight(JoinOne(lr, lcols, r, key)[k], Some(Matches(r.rows, key, Cell(lr, key))[k]), lcols, r.columns, key)
  {
    var ms := Matches(r.rows, key, Cell(lr, key));
    CombineContents(lr, None, lcols, r.columns, key);
    forall k | 0 <= k < |ms| ensures ExtendsLeft(Combine(lr, Some(ms[k]), lcols, r.columns, key), lr, lcols, r.columns, key)
      && ExtendsRight(Combine(lr, Some(ms[k]), lcols, r.columns, key), Some(ms[k]), lcols, r.columns, key)
    {
      CombineContents(lr, Some(ms[k]), lcols, r.columns, key);
    }
  }

  /** With no repeated key on the right the merge is one-to-one: the i-th
      output row carries the i-th left row. */
  lemma JoinOneToOne(lrows: seq<Row>, lcols: seq<string>, r: Table, key: string)
    requires KeysDistinct(r.rows, key) && NoNameClash(lcols, r.columns, key)
    ensures |JoinRows(lrows, lcols, r, key)| == |lrows|
    ensures forall i :: 0 <= i < |lrows| ==> ExtendsLeft(JoinRows(lrows, lcols, r, key)[i], lrows[i], lcols, r.columns, key)
  {
    JoinRowsOneEach(lrows, lcols, r, key);
    forall i | 0 <= i < |lrows|
      ensures ExtendsLeft(JoinRows(lrows, lcols, r, key)[i], lrows[i], lcols, r.columns, key)
    {
      JoinOneSingle(lrows[i], lcols, r, key);
    }
  }

  /** With no repeated key on the right each left row yields exactly one row. */
  lemma {:induction false} JoinRowsOneEach(lrows: seq<Row>, lcols: seq<string>, r: Table, key: string)
    requires KeysDistinct(r.rows, key)
    ensures |JoinRows(lrows, lcols, r, key)| == |lrows|
    ensures forall i :: 0 <= i < |lrows| ==> JoinRows(lrows, lcols, r, key)[i] == JoinOne(lrows[i], lcols, r, key)[0]
  {
    if lrows != [] {
      var rest := JoinRows(lrows[1..], lcols, r, key);
      JoinRowsOneEach(lrows[1..], lcols, r, key);
      JoinOneLength(lrows[0], lcols, r, key);
      ConsIndex(JoinOne(lrows[0], lcols, r, key), rest);
    }
  }

  lemma JoinOneLength(lr: Row, lcols: seq<string>, r: Table, key: string)
    requires KeysDistinct(r.rows, key)
    ensures |JoinOne(lr, lcols, r, key)| == 1
  {
    MatchesAtMostOne(r.rows, key, Cell(lr, key));
  }

  /** Indexing past a one-element head. */
  lemma ConsIndex<T>(a: seq<T>, b: seq<T>)
    requires |a| == 1
    ensures forall i :: 0 < i <= |b| ==> (a + b)[i] == b[i - 1]
  {
  }

  lemma {:induction false} JoinOneSingle(lr: Row, lcols: seq<string>, r: Table, key: string)
    requires KeysDistinct(r.rows, key) && NoNameClash(lcols, r.columns, key)
    ensures |JoinOne(lr, lcols, r, key)| == 1
    ensures ExtendsLeft(JoinOne(lr, lcols, r, key)[0], lr, lcols, r.columns, key)
  {
    MatchesAtMostOne(r.rows, key, Cell(lr, key));
    var ms := Matches(r.rows, key, Cell(lr, key));
    if ms == [] {
      CombineContents(lr, None, lcols, r.columns, key);
    } else {
      CombineContents(lr, Some(ms[0]), lcols, r.columns, key);
    }
  }

  /** Every row of the left side reaches the output of the merge. */
  lemma JoinRowsCoverMembers(lrows: seq<Row>, lcols: seq<string>, r: Table, key: string)
    requires NoNameClash(lcols, r.columns, key)
    ensures forall l :: l in lrows ==> exists out ::
      out in JoinRows(lrows, lcols, r, key) && ExtendsLeft(out, l, lcols, r.columns, key)
  {
    JoinRowsCover(lrows, lcols, r, key);
    forall l | l in lrows
      ensures exists out :: out in JoinRows(lrows, lcols, r, key) && ExtendsLeft(out, l, lcols, r.columns, key)
    {
      var i :| 0 <= i < |lrows| && lrows[i] == l;
    }
  }

  /** A left join loses no left row: each one is carried by some output
      row, the null-extended one when nothing on the right matches it. */
  lemma {:induction false} JoinRowsCover(lrows: seq<Row>, lcols: seq<string>, r: Table, key: string)
    requires NoNameClash(lcols, r.columns, key)
    ensures forall i :: 0 <= i < |lrows| ==> exists out ::
      && out in JoinRows(lrows, lcols, r, key)
      && ExtendsLeft(out, lrows[i], lcols, r.columns, key)
      && (Matches(r.rows, key, Cell(lrows[i], key)) == [] ==> ExtendsRight(out, None, lcols, r.columns, key))
  {
    if lrows != [] {
      JoinRowsCover(lrows[1..], lcols, r, key);
      var one := JoinOne(lrows[0], lcols, r, key);
      var rest := JoinRows(lrows[1..], lcols, r, key);
      assert JoinRows(lrows, lcols, r, key) == one + rest;
      JoinOneContents(lrows[0], lcols, r, key);
      forall i | 0 <= i < |lrows|
        ensures exists out ::
          && out in JoinRows(lrows, lcols, r, key)
          && ExtendsLeft(out, lrows[i], lcols, r.columns, key)
          && (Matches(r.rows, key, Cell(lrows[i], key)) == [] ==> ExtendsRight(out, None, lcols, r.columns, key))
      {
        if i == 0 {
          assert one[0] in one;
          assert one[0] in JoinRows(lrows, lcols, r, key);
        } else {
          assert lrows[i] == lrows[1..][i - 1];
          var out :| && out in rest
            && ExtendsLeft(out, lrows[1..][i - 1], lcols, r.columns, key)
            && (Matches(r.rows, key, Cell(lrows[1..][i - 1], key)) == [] ==> ExtendsRight(out, None, lcols, r.columns, key));
          assert out in JoinRows(lrows, lcols, r, key);
        }
      }
    }
  }

  /** The merge key is among the merged columns. */
  lemma KeyInJoin(lcols: seq<string>, rcols: seq<string>, key: string)
    requires key in lcols
    ensures key in JoinColumns(lcols, rcols, key)
  {
    var i :| 0 <= i < |lcols| && lcols[i] == key;
    assert JoinColumns(lcols, rcols, key)[i] == LeftName(key, rcols, key);
  }

  /** With no repeated key on the right, the merge keeps the row count. */
  lemma {:induction false} DistinctRightKeepsCount(lrows: seq<Row>, rrows: seq<Row>, key: string)
    requires KeysDistinct(rrows, key)
    ensures TotalMultiplicity(lrows, rrows, key) == |lrows|
  {
    if lrows != [] {
      MatchesAtMostOne(rrows, key, Cell(lrows[0], key));
      DistinctRightKeepsCount(lrows[1..], rrows, key);
    }
  }

  // ---------------------------------------------------------------------
  // Projection

  /** [c for c in preferred if c in present]. */
  function Present(preferred: seq<string>, present: seq<string>): (cs: seq<string>)
  {
    if preferred == [] then []
    else
      var init, last := preferred[..|preferred| - 1], preferred[|preferred| - 1];
      Present(init, present) + (if last in present then [last] else [])
  }

  /** The projected columns are exactly the preferred ones that exist, in
      preferred order. */
  lemma {:induction false} PresentExact(preferred: seq<string>, present: seq<string>)
    ensures forall c :: c in Present(preferred, present) <==> c in preferred && c in present
    ensures IsSubsequence(Present(preferred, present), preferred)
  {
    if preferred != [] {
      var init, last := preferred[..|preferred| - 1], preferred[|preferred| - 1];
      PresentExact(init, present);
      assert preferred == init + [last];
      if last in present {
        SubsequenceAppend(Present(init, present), init, last);
      } else {
        assert Present(preferred, present) == Present(init, present);
        SubsequenceExtend(Present(init, present), init, last);
      }
    }
  }

  function Restrict(r: Row, cols: seq<string>): (p: Row)
    ensures p.Keys == set c | c in cols
    ensures forall c :: c in cols ==> p[c] == Cell(r, c)
  {
    map c | c in cols :: Cell(r, c)
  }

  /** df[[c for c in preferred if c in df.columns]]: the rows are kept,
      each narrowed to the chosen columns. */
  function Project(t: Table, preferred: seq<string>): (p: Table)
    ensures p.columns == Present(preferred, t.columns)
    ensures |p.rows| == |t.rows|
    ensures forall i, c :: 0 <= i < |t.rows| && c in p.columns ==> Cell(p.rows[i], c) == Cell(t.rows[i], c)
  {
    var cols := Present(preferred, t.columns);
    Table(cols, seq(|t.rows|, i requires 0 <= i < |t.rows| => Restrict(t.rows[i], cols)))
  }
}

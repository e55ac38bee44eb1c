/** The transformation and run accounting of flows/etl_lab2_prefect.py:
    numeric coercion of the enrolment ids, the choice of the primary key,
    the renaming of key aliases, the null-key filters, the roster-first merge
    chain, the run metrics and the monitor row with its summary. */
module EtlPrefect {
  import opened Tables
  import opened TextOps
  import opened Relational

  const DefaultKey: string := "id_alumno"

  /** The columns of the enrolments that are coerced to numbers. */
  const IdColumns: seq<string> := ["id_alumno", "id_matricula"]

  /** The alternative spellings of the key, tried in this order. */
  const Aliases: seq<string> := ["idAlumno", "idalumno", "alumno_id"]

  // =====================================================================
  // 1. Numeric coercion: pd.to_numeric(errors="coerce")

  /** One cell after pd.to_numeric(errors="coerce"): numbers and nulls are
      kept, a text is parsed and becomes null when it is not a number. */
  function CoerceNumeric(v: Value): (w: Value)
    ensures !w.Text?
    ensures v.Num? || v.Null? ==> w == v
    ensures v.Text? ==> (w.Null? <==> ParseNumber(v.s).None?)
    ensures v.Text? && ParseNumber(v.s).Some? ==> w == Num(ParseNumber(v.s).value)
  {
    match v
    case Text(s) =>
      (match ParseNumber(s)
       case Some(x) => Num(x)
       case None => Null)
    case _ => v
  }

  /** The text an integer id reads back as (the XML text of the enrolment
      file) is coerced to that id. */
  lemma CoerceIdText(i: int)
    ensures CoerceNumeric(Text(ShowInt(i))) == Num(i as real)
  {
    ParseShowInt(i);
  }

  /** Coercion is idempotent. */
  lemma CoerceTwice(v: Value)
    ensures CoerceNumeric(CoerceNumeric(v)) == CoerceNumeric(v)
  {
  }

  function CoerceRow(r: Row, col: string): Row
  {
    if col in r then r[col := CoerceNumeric(r[col])] else r
  }

  /** df[col] = pd.to_numeric(df[col], errors="coerce"). */
  function CoerceColumn(t: Table, col: string): (u: Table)
    ensures u.columns == t.columns && |u.rows| == |t.rows|
  {
    Table(t.columns, seq(|t.rows|, i requires 0 <= i < |t.rows| => CoerceRow(t.rows[i], col)))
  }

  /** The coercion loop over `cols`, skipping the columns that are absent. */
  function CoerceColumns(t: Table, cols: seq<string>): (u: Table)
    ensures u.columns == t.columns && |u.rows| == |t.rows|
  {
    if cols == [] then t
    else
      var u := CoerceColumns(t, cols[..|cols| - 1]);
      var col := cols[|cols| - 1];
      if col in u.columns then CoerceColumn(u, col) else u
  }

  method CoerceIds(ma: Table) returns (u: Table)
    ensures u == CoerceColumns(ma, IdColumns)
  {
    u := ma;
    for i := 0 to |IdColumns|
      invariant u == CoerceColumns(ma, IdColumns[..i])
    {
      assert IdColumns[..i + 1][..i] == IdColumns[..i];
      var col := IdColumns[i];
      if col in u.columns {
        u := CoerceColumn(u, col);
      }
    }
    assert IdColumns[..|IdColumns|] == IdColumns;
  }

  /** After the loop every coerced cell is the coerced value of the original
      (so no coerced column holds a text), no row gains or loses a column,
      and every other cell is as it was. */
  lemma {:induction false} CoerceColumnsFacts(t: Table, cols: seq<string>)
    ensures var u := CoerceColumns(t, cols);
      forall i :: 0 <= i < |t.rows| ==>
        && u.rows[i].Keys == t.rows[i].Keys
        && (forall c :: c in cols && c in t.columns ==> Cell(u.rows[i], c) == CoerceNumeric(Cell(t.rows[i], c)))
        && (forall c :: c !in cols || c !in t.columns ==> Cell(u.rows[i], c) == Cell(t.rows[i], c))
  {
    if cols != [] {
      var init, col := cols[..|cols| - 1], cols[|cols| - 1];
      CoerceColumnsFacts(t, init);
      var u0 := CoerceColumns(t, init);
      var u := CoerceColumns(t, cols);
      forall i | 0 <= i < |t.rows|
        ensures u.rows[i].Keys == t.rows[i].Keys
        ensures forall c :: c in cols && c in t.columns ==> Cell(u.rows[i], c) == CoerceNumeric(Cell(t.rows[i], c))
        ensures forall c :: c !in cols || c !in t.columns ==> Cell(u.rows[i], c) == Cell(t.rows[i], c)
      {
        if col in u0.columns {
          assert u.rows[i] == CoerceRow(u0.rows[i], col);
          forall c | c in cols && c in t.columns
            ensures Cell(u.rows[i], c) == CoerceNumeric(Cell(t.rows[i], c))
          {
            if c in init {
              CoerceTwice(Cell(t.rows[i], c));
            } else {
              assert c == col;
            }
          }
        } else {
          assert u == u0;
        }
      }
    }
  }

  // =====================================================================
  // 2. The key and its aliases

  /** key = "id_alumno" if present, else the roster's first column; a roster
      without columns makes df_al.columns[0] raise an IndexError. */
  function ChooseKey(al: Table): (res: Result<string>)
    ensures res.Failure? <==> al.columns == [] && DefaultKey !in al.columns
    ensures res.Failure? ==> res.error == NoColumns
    ensures res.Success? ==> res.value in al.columns
    ensures DefaultKey in al.columns ==> res == Success(DefaultKey)
    ensures DefaultKey !in al.columns && al.columns != [] ==> res == Success(al.columns[0])
  {
    if DefaultKey in al.columns then Success(DefaultKey)
    else if al.columns == [] then Failure(NoColumns)
    else Success(al.columns[0])
  }

  /** The first alias the table has, if any. */
  function FirstAlias(cols: seq<string>, aliases: seq<string>): (a: Option<string>)
    ensures a.Some? ==> a.value in aliases && a.value in cols
    ensures a.None? <==> forall c :: c in aliases ==> c !in cols
  {
    if aliases == [] then None
    else if aliases[0] in cols then Some(aliases[0])
    else FirstAlias(cols, aliases[1..])
  }

  /** The alias found is the first alias in the list that the table has. */
  lemma {:induction false} FirstAliasIsFirst(cols: seq<string>, aliases: seq<string>)
    requires FirstAlias(cols, aliases).Some?
    ensures exists k :: (0 <= k < |aliases| && aliases[k] == FirstAlias(cols, aliases).value
      && forall j :: 0 <= j < k ==> aliases[j] !in cols)
  {
    if aliases[0] !in cols {
      FirstAliasIsFirst(cols, aliases[1..]);
      var k :| 0 <= k < |aliases[1..]| && aliases[1..][k] == FirstAlias(cols, aliases).value
        && forall j :: 0 <= j < k ==> aliases[1..][j] !in cols;
      assert aliases[k + 1] == aliases[1..][k];
      forall j | 0 <= j < k + 1 ensures aliases[j] !in cols {
        if j > 0 { assert aliases[j] == aliases[1..][j - 1]; }
      }
    }
  }

  function RenameCol(c: string, src: string, dst: string): string
  {
    if c == src then dst else c
  }

  function RenameRow(r: Row, src: string, dst: string): (s: Row)
    ensures src != dst ==> src !in s
    ensures src in r ==> s.Keys == (r.Keys - {src}) + {dst} && s[dst] == r[src]
    ensures src !in r ==> s == r
    ensures forall c :: c != src && c != dst ==> Cell(s, c) == Cell(r, c)
  {
    if src in r then (map c | c in r && c != src :: r[c])[dst := r[src]] else r
  }

  /** df.rename(columns={src: dst}). */
  function Rename(t: Table, src: string, dst: string): (u: Table)
    ensures |u.columns| == |t.columns| && |u.rows| == |t.rows|
    ensures forall i :: 0 <= i < |t.columns| ==> u.columns[i] == RenameCol(t.columns[i], src, dst)
    ensures forall i :: 0 <= i < |t.rows| ==> u.rows[i] == RenameRow(t.rows[i], src, dst)
  {
    Table(seq(|t.columns|, i requires 0 <= i < |t.columns| => RenameCol(t.columns[i], src, dst)),
          seq(|t.rows|, i requires 0 <= i < |t.rows| => RenameRow(t.rows[i], src, dst)))
  }

  /** The table after the alias loop for `key`. */
  function AliasResolved(t: Table, key: string): (u: Table)
    ensures |u.columns| == |t.columns| && |u.rows| == |t.rows|
    ensures key in t.columns || FirstAlias(t.columns, Aliases).None? ==> u == t
    ensures key in u.columns ==> key in t.columns || FirstAlias(t.columns, Aliases).Some?
  {
    if key in t.columns then t
    else
      match FirstAlias(t.columns, Aliases)
      case None => t
      case Some(c) => Rename(t, c, key)
  }

  /** if key not in df.columns: for c in aliases: if c in df.columns:
      rename c to key and break. */
  method ResolveAlias(t: Table, key: string) returns (u: Table)
    ensures u == AliasResolved(t, key)
  {
    u := t;
    if key in t.columns {
      return;
    }
    var i := 0;
    while i < |Aliases|
      invariant 0 <= i <= |Aliases|
      invariant u == t
      invariant FirstAlias(t.columns, Aliases) == FirstAlias(t.columns, Aliases[i..])
    {
      var c := Aliases[i];
      if c in t.columns {
        u := Rename(t, c, key);
        return;
      }
      i := i + 1;
    }
  }

  /** What the alias step does to the columns: the key is present afterwards
      exactly when it was present before or some alias was; only the first
      alias present is renamed, in place; no other column changes. */
  lemma AliasResolvedColumns(t: Table, key: string)
    requires Distinct(t.columns)
    ensures var u := AliasResolved(t, key);
      && (key in u.columns <==> key in t.columns || exists a :: a in Aliases && a in t.columns)
      && |u.columns| == |t.columns| && |u.rows| == |t.rows|
      && (key in t.columns || FirstAlias(t.columns, Aliases).None? ==> u == t)
      && (key !in t.columns && FirstAlias(t.columns, Aliases).Some? ==>
            var c := FirstAlias(t.columns, Aliases).value;
            && c !in u.columns
            && forall i :: 0 <= i < |t.columns| ==>
                 u.columns[i] == (if t.columns[i] == c then key else t.columns[i]))
  {
    var u := AliasResolved(t, key);
    if key !in t.columns && FirstAlias(t.columns, Aliases).Some? {
      var c := FirstAlias(t.columns, Aliases).value;
      var k :| 0 <= k < |t.columns| && t.columns[k] == c;
      assert u.columns[k] == key;
    }
    if key in u.columns && key !in t.columns {
      assert FirstAlias(t.columns, Aliases).Some?;
    }
  }

  /** What the alias step does to the rows: the key takes the alias's value
      and every other cell is kept. */
  lemma AliasResolvedRows(t: Table, key: string)
    requires WellFormed(t)
    requires key !in t.columns && FirstAlias(t.columns, Aliases).Some?
    ensures var u := AliasResolved(t, key);
      var c := FirstAlias(t.columns, Aliases).value;
      forall i :: 0 <= i < |t.rows| ==>
        && Cell(u.rows[i], key) == Cell(t.rows[i], c)
        && c !in u.rows[i]
        && forall d :: d != c && d != key ==> Cell(u.rows[i], d) == Cell(t.rows[i], d)
  {
    var u := AliasResolved(t, key);
    var c := FirstAlias(t.columns, Aliases).value;
    forall i | 0 <= i < |t.rows| ensures c in t.rows[i] {
      assert t.rows[i] in t.rows;
    }
  }

  // =====================================================================
  // 3. The transform task

  datatype TransformOut = TransformOut(final: Table, validRows: nat, discardedRows: nat)

  /** The three tables after the key step, and the key. */
  datatype Keyed = Keyed(key: string, alumnos: Table, calificaciones: Table, matriculas: Table)

  function KeySpec(al: Table, ca: Table, ma: Table): (res: Result<Keyed>)
    ensures res.Failure? <==> al.columns == [] && DefaultKey !in al.columns
    ensures res.Failure? ==> res.error == NoColumns
    ensures res.Success? ==>
      && res.value.key == ChooseKey(al).value && res.value.key in al.columns
      && res.value.alumnos == al
      && |res.value.calificaciones.rows| == |ca.rows| && |res.value.matriculas.rows| == |ma.rows|
      && (res.value.key in ca.columns ==> res.value.calificaciones == ca)
  {
    var ma1 := CoerceColumns(ma, IdColumns);
    match ChooseKey(al)
    case Failure(e) => Failure(e)
    case Success(key) =>
      Success(Keyed(key, al, AliasResolved(ca, key), AliasResolved(ma1, key)))
  }

  /** The null-key filters, in the order the source applies them. */
  function FilterSpec(k: Keyed): (res: Result<(Table, Table, Table)>)
    ensures res.Failure? <==>
      k.key !in k.alumnos.columns || k.key !in k.calificaciones.columns || k.key !in k.matriculas.columns
    ensures res.Failure? ==> res.error == MissingColumn(k.key)
    ensures res.Success? ==>
      && res.value.0.columns == k.alumnos.columns
      && res.value.1.columns == k.calificaciones.columns
      && res.value.2.columns == k.matriculas.columns
      && |res.value.0.rows| == |k.alumnos.rows| - CountNull(k.alumnos.rows, k.key)
      && |res.value.1.rows| == |k.calificaciones.rows| - CountNull(k.calificaciones.rows, k.key)
      && |res.value.2.rows| == |k.matriculas.rows| - CountNull(k.matriculas.rows, k.key)
  {
    match FilterNullKeys(k.alumnos, k.key)
    case Failure(e) => Failure(e)
    case Success(vl) =>
      match FilterNullKeys(k.calificaciones, k.key)
      case Failure(e) => Failure(e)
      case Success(vc) =>
        match FilterNullKeys(k.matriculas, k.key)
        case Failure(e) => Failure(e)
        case Success(vm) => Success((vl, vc, vm))
  }

  /** valid_left ⟕ valid_ca ⟕ valid_ma on the key. */
  function MergeSpec(key: string, vl: Table, vc: Table, vm: Table): (res: Result<Table>)
    ensures res.Failure? <==> key !in vl.columns || key !in vc.columns || key !in vm.columns
  {
    match LeftJoin(vl, vc, key)
    case Failure(e) => Failure(e)
    case Success(temp) =>
      KeyInJoin(vl.columns, vc.columns, key);
      LeftJoin(temp, vm, key)
  }

  /** transform(dfs): the fact table with valid_rows and discarded_rows. */
  function TransformSpec(al: Table, ca: Table, ma: Table): (res: Result<TransformOut>)
    ensures ChooseKey(al).Failure? ==> res == Failure(NoColumns)
    ensures res.Failure? ==> res.error == NoColumns || res.error == MissingColumn(ChooseKey(al).value)
    ensures res.Success? ==> res.value.validRows == |res.value.final.rows|
  {
    match KeySpec(al, ca, ma)
    case Failure(e) => Failure(e)
    case Success(k) =>
      match FilterSpec(k)
      case Failure(e) => Failure(e)
      case Success(valid) =>
        var (vl, vc, vm) := valid;
        var discarded := (|k.alumnos.rows| - |vl.rows|) + (|k.calificaciones.rows| - |vc.rows|)
                       + (|k.matriculas.rows| - |vm.rows|);
        match MergeSpec(k.key, vl, vc, vm)
        case Failure(e) => Failure(e)
        case Success(final) => Success(TransformOut(final, |final.rows|, discarded))
  }

  method Transform(al: Table, ca: Table, ma: Table) returns (res: Result<TransformOut>)
    ensures res == TransformSpec(al, ca, ma)
  {
    var dfMa := CoerceIds(ma);
    var chosen := ChooseKey(al);
    if chosen.Failure? { return Failure(chosen.error); }
    var key := chosen.value;
    var dfCa := ResolveAlias(ca, key);
    dfMa := ResolveAlias(dfMa, key);
    var k := Keyed(key, al, dfCa, dfMa);
    assert KeySpec(al, ca, ma) == Success(k);
    // the roster always has the key, so its filter cannot fail
    var vl := FilterNullKeys(al, key).value;
    var vc := FilterNullKeys(dfCa, key);
    if vc.Failure? { return Failure(vc.error); }
    var vm := FilterNullKeys(dfMa, key);
    if vm.Failure? { return Failure(vm.error); }
    var discarded := (|al.rows| - |vl.rows|) + (|dfCa.rows| - |vc.value.rows|) + (|dfMa.rows| - |vm.value.rows|);
    // after the filters every merge finds the key on both sides
    var temp := LeftJoin(vl, vc.value, key).value;
    KeyInJoin(vl.columns, vc.value.columns, key);
    var final := LeftJoin(temp, vm.value, key).value;
    assert FilterSpec(k) == Success((vl, vc.value, vm.value));
    assert MergeSpec(key, vl, vc.value, vm.value) == Success(final);
    return Success(TransformOut(final, |final.rows|, discarded));
  }

  /** The transform fails exactly when the roster has no column at all, or
      the grades or the enrolments have neither the key nor one of its
      aliases; the roster filter and the merges never fail. */
  lemma TransformFailures(al: Table, ca: Table, ma: Table)
    requires Distinct(ca.columns) && Distinct(ma.columns)
    ensures TransformSpec(al, ca, ma).Failure? <==>
      || (al.columns == [] && DefaultKey !in al.columns)
      || (var key := ChooseKey(al).value;
          || (key !in ca.columns && forall a :: a in Aliases ==> a !in ca.columns)
          || (key !in ma.columns && forall a :: a in Aliases ==> a !in ma.columns))
  {
    if ChooseKey(al).Success? {
      var k := KeySpec(al, ca, ma).value;
      var ma1 := CoerceColumns(ma, IdColumns);
      AliasResolvedColumns(ca, k.key);
      AliasResolvedColumns(ma1, k.key);
      if FilterSpec(k).Success? {
        var (vl, vc, vm) := FilterSpec(k).value;
        KeyInJoin(vl.columns, vc.columns, k.key);
      }
    }
  }

  /** The accounting identity of the transform: every row read is either
      discarded for a null key or kept in one of the three filtered tables;
      discarded_rows counts exactly the null keys. */
  lemma DiscardedAccounting(al: Table, ca: Table, ma: Table)
    requires TransformSpec(al, ca, ma).Success?
    ensures var k := KeySpec(al, ca, ma).value;
      var (vl, vc, vm) := FilterSpec(k).value;
      var out := TransformSpec(al, ca, ma).value;
      && out.discardedRows == CountNull(al.rows, k.key) + CountNull(k.calificaciones.rows, k.key)
                              + CountNull(k.matriculas.rows, k.key)
      && |al.rows| + |ca.rows| + |ma.rows| == out.discardedRows + |vl.rows| + |vc.rows| + |vm.rows|
      && out.discardedRows <= |al.rows| + |ca.rows| + |ma.rows|
  {
    var k := KeySpec(al, ca, ma).value;
    assert |k.calificaciones.rows| == |ca.rows|;
    assert |k.matriculas.rows| == |ma.rows|;
  }

  /** The roster-first chain loses no valid roster row: every roster row
      with a key yields at least one fact row, carrying its values; with no
      repeated key in the grades and in the enrolments (and no clash of
      column names) it yields exactly one. */
  lemma {:induction false} RosterRowsKept(al: Table, ca: Table, ma: Table)
    requires TransformSpec(al, ca, ma).Success?
    ensures var k := KeySpec(al, ca, ma).value;
      var out := TransformSpec(al, ca, ma).value;
      && out.validRows == |out.final.rows|
      && out.validRows >= |al.rows| - CountNull(al.rows, k.key)
      && (KeysDistinct(k.calificaciones.rows, k.key) && KeysDistinct(k.matriculas.rows, k.key) ==>
            out.validRows == |al.rows| - CountNull(al.rows, k.key))
  {
    var k := KeySpec(al, ca, ma).value;
    var (vl, vc, vm) := FilterSpec(k).value;
    var temp := LeftJoin(vl, vc, k.key).value;
    JoinRowCount(vl.rows, vl.columns, vc, k.key);
    JoinRowCount(temp.rows, temp.columns, vm, k.key);
    if KeysDistinct(k.calificaciones.rows, k.key) && KeysDistinct(k.matriculas.rows, k.key) {
      FilteredKeysDistinct(k.calificaciones.rows, k.key);
      FilteredKeysDistinct(k.matriculas.rows, k.key);
      DistinctRightKeepsCount(vl.rows, vc.rows, k.key);
      DistinctRightKeepsCount(temp.rows, vm.rows, k.key);
    }
  }

  /** Filtering preserves distinct keys. */
  lemma FilteredKeysDistinct(rows: seq<Row>, key: string)
    requires KeysDistinct(rows, key)
    ensures KeysDistinct(NonNullRows(rows, key), key)
  {
    NonNullRowsExact(rows, key);
    SubsequenceDistinct(NonNullRows(rows, key), rows, key);
  }

  lemma {:induction false} SubsequenceDistinct(a: seq<Row>, b: seq<Row>, key: string)
    requires IsSubsequence(a, b) && KeysDistinct(b, key)
    ensures KeysDistinct(a, key)
    decreases |b|
  {
    if a != [] {
      var b' := b[..|b| - 1];
      assert KeysDistinct(b', key) by {
        forall i, j | 0 <= i < j < |b'| ensures Cell(b'[i], key) != Cell(b'[j], key) {
          assert b'[i] == b[i] && b'[j] == b[j];
        }
      }
      if a[|a| - 1] == b[|b| - 1] {
        var a' := a[..|a| - 1];
        SubsequenceDistinct(a', b', key);
        SubsequenceMembers(a', b');
        forall i, j | 0 <= i < j < |a| ensures Cell(a[i], key) != Cell(a[j], key) {
          if j < |a'| {
            assert a[i] == a'[i] && a[j] == a'[j];
          } else {
            assert a[i] == a'[i] && a'[i] in b';
            var p :| 0 <= p < |b'| && b'[p] == a'[i];
            assert b[p] == b'[p];
          }
        }
      } else {
        SubsequenceDistinct(a, b', key);
      }
    }
  }

  lemma {:induction false} SubsequenceMembers(a: seq<Row>, b: seq<Row>)
    requires IsSubsequence(a, b)
    ensures forall x :: x in a ==> x in b
    decreases |b|
  {
    if a != [] {
      var b' := b[..|b| - 1];
      if a[|a| - 1] == b[|b| - 1] {
        SubsequenceMembers(a[..|a| - 1], b');
        forall x | x in a ensures x in b {
          var i :| 0 <= i < |a| && a[i] == x;
          if i < |a| - 1 {
            assert a[..|a| - 1][i] == x;
            assert x in b';
            var p :| 0 <= p < |b'| && b'[p] == x;
            assert b[p] == x;
          }
        }
      } else {
        SubsequenceMembers(a, b');
        forall x | x in a ensures x in b {
          var p :| 0 <= p < |b'| && b'[p] == x; assert b[p] == x;
        }
      }
    }
  }

  // =====================================================================
  // 4. Metrics dictionaries, log_run and the flow

  type Metrics = map<string, int>

  /** dict.get(k, 0). */
  function Get(m: Metrics, k: string): (v: int)
    ensures k !in m ==> v == 0
  {
    if k in m then m[k] else 0
  }

  /** The counts extract reports (the timestamp is left out). */
  function ExtractMetrics(al: Table, ca: Table, ma: Table): Metrics
  {
    map["alumnos_rows" := |al.rows|, "calificaciones_rows" := |ca.rows|, "matriculas_rows" := |ma.rows|]
  }

  function TransformMetrics(out: TransformOut): Metrics
  {
    map["valid_rows" := out.validRows, "discarded_rows" := out.discardedRows]
  }

  /** One row of etl_monitor; run_ts is the clock's and duracion_s is always "-". */
  datatype MonitorRow = MonitorRow(leidos: int, validos: int, descartados: int, duracion: string, estado: string, mensaje: string)

  /** The summary log_run logs. */
  datatype Summary = Summary(leidos: int, validos: int, descartados: int, estado: string, mensaje: string)

  /** log_run(extract_m, transform_m, load_m, estado, mensaje): the row it
      inserts and the summary it logs. */
  function LogRun(em: Metrics, tm: Metrics, estado: string, mensaje: string): (out: (MonitorRow, Summary))
    ensures out.0.leidos == out.1.leidos && out.0.validos == out.1.validos && out.0.descartados == out.1.descartados
    ensures |out.0.mensaje| <= 500 && |out.1.mensaje| <= 200
    ensures |out.0.mensaje| <= |mensaje| && |out.1.mensaje| <= |out.0.mensaje|
    ensures out.0.mensaje == mensaje[..|out.0.mensaje|] && out.1.mensaje == out.0.mensaje[..|out.1.mensaje|]
    ensures |mensaje| <= 500 ==> out.0.mensaje == mensaje
    ensures |mensaje| <= 200 ==> out.1.mensaje == mensaje
  {
    var leidos := Get(em, "alumnos_rows") + Get(em, "calificaciones_rows") + Get(em, "matriculas_rows");
    var row := MonitorRow(leidos, Get(tm, "valid_rows"), Get(tm, "discarded_rows"), "-", estado, Take(mensaje, 500));
    TakeNested(mensaje, 200, 500);
    (row, Summary(leidos, row.validos, row.descartados, estado, Take(mensaje, 200)))
  }

  /** What a run of the flow leaves behind: whether it succeeded, the
      exception it re-raises to its caller when it did not, and the monitor
      row and summary it logged. */
  datatype FlowOutcome = FlowOutcome(succeeded: bool, raised: Option<Error>, audit: MonitorRow, summary: Summary)

  /** etl_flow(): extract (its result is an input), transform, load (whose
      failure, if any, is an input) and log_run; on any exception log_run is
      called with empty metrics and status FAIL, and the exception re-raised. */
  function EtlFlow(extracted: Result<(Table, Table, Table)>, loadFailure: Option<Error>): (o: FlowOutcome)
    ensures o.succeeded <==>
      && extracted.Success?
      && TransformSpec(extracted.value.0, extracted.value.1, extracted.value.2).Success?
      && loadFailure.None?
    ensures o.succeeded <==> o.raised.None?
    ensures o.audit.estado == o.summary.estado == (if o.succeeded then "OK" else "FAIL")
    ensures !o.succeeded ==> o.audit.leidos == 0 && o.audit.validos == 0 && o.audit.descartados == 0
  {
    match extracted
    case Failure(e) => FailedFlow(e)
    case Success(src) =>
      var (al, ca, ma) := src;
      match TransformSpec(al, ca, ma)
      case Failure(e) => FailedFlow(e)
      case Success(out) =>
        match loadFailure
        case Some(e) => FailedFlow(e)
        case None =>
          var (row, summary) := LogRun(ExtractMetrics(al, ca, ma), TransformMetrics(out), "OK", "");
          FlowOutcome(true, None, row, summary)
  }

  function FailedFlow(e: Error): FlowOutcome
  {
    var (row, summary) := LogRun(map[], map[], "FAIL", Message(e));
    FlowOutcome(false, Some(e), row, summary)
  }

  /** A failed run re-raises its exception and is recorded with zero
      counts, status FAIL and str(e) cut to 500 characters (200 in the
      summary). */
  lemma FailedFlowRow(e: Error)
    ensures var o := FailedFlow(e);
      && !o.succeeded && o.raised == Some(e)
      && o.audit == MonitorRow(0, 0, 0, "-", "FAIL", Take(Message(e), 500))
      && o.summary == Summary(0, 0, 0, "FAIL", Take(Message(e), 200))
  {
  }

  /** A run succeeds exactly when every stage does; it then records status
      OK, an empty message, the raw row count of the three sources, the fact
      table's row count, and counts that add up. */
  lemma SucceededFlowRow(al: Table, ca: Table, ma: Table, loadFailure: Option<Error>)
    ensures var o := EtlFlow(Success((al, ca, ma)), loadFailure);
      && (o.succeeded <==> TransformSpec(al, ca, ma).Success? && loadFailure.None?)
      && (o.succeeded ==>
            var out := TransformSpec(al, ca, ma).value;
            && (o.audit, o.summary) == LogRun(ExtractMetrics(al, ca, ma), TransformMetrics(out), "OK", "")
            && o.audit.estado == "OK" && o.audit.mensaje == "" && o.summary.mensaje == ""
            && o.audit.leidos == |al.rows| + |ca.rows| + |ma.rows|
            && o.audit.validos == |out.final.rows|
            && o.audit.descartados == out.discardedRows
            && o.audit.descartados <= o.audit.leidos)
  {
    if TransformSpec(al, ca, ma).Success? {
      DiscardedAccounting(al, ca, ma);
    }
  }

  /** Every failing stage, the extraction, the transform or the load,
      reaches the monitor table as the FAIL row of the exception that stage
      raised, that same exception is re-raised to the caller, and a run fails
      only through one of them. */
  lemma FlowFailureRecorded(extracted: Result<(Table, Table, Table)>, loadFailure: Option<Error>)
    ensures extracted.Failure? ==>
      && EtlFlow(extracted, loadFailure) == FailedFlow(extracted.error)
      && EtlFlow(extracted, loadFailure).raised == Some(extracted.error)
    ensures extracted.Success? ==>
      var (al, ca, ma) := extracted.value;
      && (TransformSpec(al, ca, ma).Failure? ==>
            && EtlFlow(extracted, loadFailure) == FailedFlow(TransformSpec(al, ca, ma).error)
            && EtlFlow(extracted, loadFailure).raised == Some(TransformSpec(al, ca, ma).error))
      && (TransformSpec(al, ca, ma).Success? && loadFailure.Some? ==>
            && EtlFlow(extracted, loadFailure) == FailedFlow(loadFailure.value)
            && EtlFlow(extracted, loadFailure).raised == loadFailure)
      && (TransformSpec(al, ca, ma).Success? && loadFailure.None? ==>
            EtlFlow(extracted, loadFailure).succeeded && EtlFlow(extracted, loadFailure).raised.None?)
  {
  }
}

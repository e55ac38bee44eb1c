/** The transformation and run accounting of flows/etl_simple.py: roster
    deduplication, e-mail synthesis, score normalisation, the grade-first
    merge chain, the fact table's column order, the transform metrics and
    the audit row written for a successful or a failed run. */
module EtlSimple {
  import opened Tables
  import opened TextOps
  import opened Relational

  const Key: string := "id_alumno"
  const Domain: string := "@colegio.edu"
  const MaxScore: real := 5.0

  /** The fixed preferred order of the fact table's columns. */
  const PreferredColumns: seq<string> :=
    [Key, "nombre", "apellido", "grado", "correo", "fecha_nacimiento",
     "asignatura", "nota", "periodo", "anio", "estado", "jornada"]

  const OkMessage: string := "ETL ejecutado exitosamente"

  // =====================================================================
  // 1. Deduplication: drop_duplicates(subset=['id_alumno'], keep='first')

  /** The rows kept by drop_duplicates(keep='first'): a row stays when no
      earlier row has the same key. */
  function KeepFirst(rows: seq<Row>, key: string): (kept: seq<Row>)
    ensures |kept| <= |rows|
  {
    if rows == [] then []
    else
      var init, last := rows[..|rows| - 1], rows[|rows| - 1];
      if Cell(last, key) in KeySet(init, key) then KeepFirst(init, key)
      else KeepFirst(init, key) + [last]
  }

  /** Row i is the first row with its key. */
  predicate IsFirstAt(rows: seq<Row>, i: nat, key: string)
    requires i < |rows|
  {
    forall j :: 0 <= j < i ==> Cell(rows[j], key) != Cell(rows[i], key)
  }

  /** Deduplication keeps every key, keeps each one once, and removes
      |rows| - (number of distinct keys) rows. */
  lemma {:induction false} KeepFirstKeys(rows: seq<Row>, key: string)
    ensures KeySet(KeepFirst(rows, key), key) == KeySet(rows, key)
    ensures KeysDistinct(KeepFirst(rows, key), key)
    ensures |KeepFirst(rows, key)| == |KeySet(rows, key)|
  {
    if rows != [] {
      var init, last := rows[..|rows| - 1], rows[|rows| - 1];
      KeepFirstKeys(init, key);
      var k0 := KeepFirst(init, key);
      if Cell(last, key) !in KeySet(init, key) {
        KeysDistinctSnoc(k0, last, key);
      }
    }
  }

  /** Deduplication keeps the relative order of the rows it keeps. */
  lemma {:induction false} KeepFirstOrder(rows: seq<Row>, key: string)
    ensures IsSubsequence(KeepFirst(rows, key), rows)
  {
    if rows != [] {
      var init, last := rows[..|rows| - 1], rows[|rows| - 1];
      KeepFirstOrder(init, key);
      assert rows == init + [last];
      if Cell(last, key) in KeySet(init, key) {
        SubsequenceExtend(KeepFirst(init, key), init, last);
      } else {
        SubsequenceAppend(KeepFirst(init, key), init, last);
      }
    }
  }

  /** `r` is the first row of `rows` with its key. */
  predicate IsFirstRow(rows: seq<Row>, r: Row, key: string)
  {
    exists i :: 0 <= i < |rows| && rows[i] == r && IsFirstAt(rows, i, key)
  }

  /** Every kept row is the first row of the input with its key. */
  predicate KeptAreFirsts(kept: seq<Row>, rows: seq<Row>, key: string)
  {
    forall m :: 0 <= m < |kept| ==> IsFirstRow(rows, kept[m], key)
  }

  lemma {:induction false} KeepFirstFirsts(rows: seq<Row>, key: string)
    ensures KeptAreFirsts(KeepFirst(rows, key), rows, key)
  {
    if rows != [] {
      var init, last := rows[..|rows| - 1], rows[|rows| - 1];
      KeepFirstFirsts(init, key);
      var k0 := KeepFirst(init, key);
      var k := KeepFirst(rows, key);
      forall m | 0 <= m < |k| ensures IsFirstRow(rows, k[m], key) {
        var i := FirstWitness(rows, key, m);
        assert rows[i] == k[m] && IsFirstAt(rows, i, key);
      }
    }
  }

  /** The position in `rows` of the m-th kept row, for the induction step above. */
  lemma {:induction false} FirstWitness(rows: seq<Row>, key: string, m: nat) returns (i: nat)
    requires rows != [] && KeptAreFirsts(KeepFirst(rows[..|rows| - 1], key), rows[..|rows| - 1], key)
    requires m < |KeepFirst(rows, key)|
    ensures i < |rows| && rows[i] == KeepFirst(rows, key)[m] && IsFirstAt(rows, i, key)
  {
    var init := rows[..|rows| - 1];
    var k0 := KeepFirst(init, key);
    if m < |k0| {
      assert KeepFirst(rows, key)[m] == k0[m];
      assert IsFirstRow(init, k0[m], key);
      i :| 0 <= i < |init| && init[i] == k0[m] && IsFirstAt(init, i, key);
      FirstAtPrefix(rows, |init|, i, key);
    } else {
      i := |rows| - 1;
      FirstAtNew(rows, key);
    }
  }

  /** Being first only depends on the rows before. */
  lemma FirstAtPrefix(rows: seq<Row>, n: nat, i: nat, key: string)
    requires i < n <= |rows| && IsFirstAt(rows[..n], i, key)
    ensures IsFirstAt(rows, i, key)
  {
    forall j | 0 <= j < i ensures Cell(rows[j], key) != Cell(rows[i], key) {
      assert rows[j] == rows[..n][j] && rows[i] == rows[..n][i];
    }
  }

  /** The last row is first when its key is new. */
  lemma FirstAtNew(rows: seq<Row>, key: string)
    requires rows != [] && Cell(rows[|rows| - 1], key) !in KeySet(rows[..|rows| - 1], key)
    ensures IsFirstAt(rows, |rows| - 1, key)
  {
    var init := rows[..|rows| - 1];
    KeySetMembers(init, key, Cell(rows[|rows| - 1], key));
    forall j | 0 <= j < |rows| - 1 ensures Cell(rows[j], key) != Cell(rows[|rows| - 1], key) {
      assert rows[j] == init[j];
    }
  }

  /** A table whose keys are already distinct is left as it is, so
      deduplicating twice is the same as deduplicating once. */
  lemma {:induction false} KeepFirstOfDistinct(rows: seq<Row>, key: string)
    requires KeysDistinct(rows, key)
    ensures KeepFirst(rows, key) == rows
  {
    if rows != [] {
      var init, last := rows[..|rows| - 1], rows[|rows| - 1];
      assert KeysDistinct(init, key) by {
        forall a, b | 0 <= a < b < |init| ensures Cell(init[a], key) != Cell(init[b], key) {
          assert init[a] == rows[a] && init[b] == rows[b];
        }
      }
      KeepFirstOfDistinct(init, key);
      KeySetMembers(init, key, Cell(last, key));
      assert init + [last] == rows;
    }
  }

  lemma KeepFirstIdempotent(rows: seq<Row>, key: string)
    ensures KeepFirst(KeepFirst(rows, key), key) == KeepFirst(rows, key)
  {
    KeepFirstKeys(rows, key);
    KeepFirstOfDistinct(KeepFirst(rows, key), key);
  }

  /** drop_duplicates(subset=[key], keep='first'); a KeyError naming the
      subset when the column is absent. */
  method DropDuplicates(t: Table, key: string) returns (res: Result<Table>)
    ensures key !in t.columns ==> res == Failure(MissingSubset(key))
    ensures key in t.columns ==> res == Success(Table(t.columns, KeepFirst(t.rows, key)))
  {
    if key !in t.columns {
      return Failure(MissingSubset(key));
    }
    var kept: seq<Row> := [];
    var seen: set<Value> := {};
    var i := 0;
    while i < |t.rows|
      invariant 0 <= i <= |t.rows|
      invariant seen == KeySet(t.rows[..i], key)
      invariant kept == KeepFirst(t.rows[..i], key)
    {
      var r := t.rows[i];
      assert t.rows[..i + 1][..i] == t.rows[..i];
      if Cell(r, key) !in seen {
        kept := kept + [r];
        seen := seen + {Cell(r, key)};
      }
      i := i + 1;
    }
    assert t.rows[..i] == t.rows;
    return Success(Table(t.columns, kept));
  }

  /** Two roster rows with the same key: the first one stays and one
      duplicate is reported. */
  lemma DuplicateExample()
    ensures var a, b := map[Key := Num(1.0), "nombre" := Text("Ana")], map[Key := Num(1.0), "nombre" := Text("Eva")];
      KeepFirst([a, b], Key) == [a] && |[a, b]| - |KeepFirst([a, b], Key)| == 1
  {
    var a, b := map[Key := Num(1.0), "nombre" := Text("Ana")], map[Key := Num(1.0), "nombre" := Text("Eva")];
    assert [a, b][..1] == [a];
    assert [a][..0] == [];
  }

  // =====================================================================
  // 2. E-mail synthesis: generar_correo

  /** The address built from a given name and a surname. */
  function Email(nombre: Value, apellido: Value): (e: string)
    ensures |e| >= |Domain| && e[|e| - |Domain|..] == Domain
  {
    Clean(ToText(nombre)) + "." + Clean(ToText(apellido)) + Domain
  }

  /** A missing address: null or the empty string. */
  predicate NeedsCorreo(v: Value)
  {
    v == Null || v == Text("")
  }

  /** generar_correo(row): the existing address when there is one, else the
      synthesised one; reading a missing name column is a KeyError. */
  function GenerarCorreo(columns: seq<string>, r: Row): (res: Result<Value>)
    ensures !NeedsCorreo(Cell(r, "correo")) ==> res == Success(Cell(r, "correo"))
    ensures res.Success? ==> res.value != Null && !NeedsCorreo(res.value)
    ensures NeedsCorreo(Cell(r, "correo")) && "nombre" in columns && "apellido" in columns ==>
      res == Success(Text(Email(Cell(r, "nombre"), Cell(r, "apellido"))))
    ensures NeedsCorreo(Cell(r, "correo")) && ("nombre" !in columns || "apellido" !in columns) ==>
      res == Failure(MissingColumn(if "nombre" !in columns then "nombre" else "apellido"))
  {
    if !NeedsCorreo(Cell(r, "correo")) then Success(Cell(r, "correo"))
    else if "nombre" !in columns then Failure(MissingColumn("nombre"))
    else if "apellido" !in columns then Failure(MissingColumn("apellido"))
    else Success(Text(Email(Cell(r, "nombre"), Cell(r, "apellido"))))
  }

  /** The address holds exactly one '@' more than the two names together. */
  lemma EmailAtSigns(nombre: Value, apellido: Value)
    ensures CountChar('@', Email(nombre, apellido))
         == CountChar('@', ToText(nombre)) + CountChar('@', ToText(apellido)) + 1
  {
    var n, a := Clean(ToText(nombre)), Clean(ToText(apellido));
    assert Email(nombre, apellido) == n + "." + a + Domain;
    CleanKeepsPlainChar('@', ToText(nombre));
    CleanKeepsPlainChar('@', ToText(apellido));
    CountCharConcat('@', n + "." + a, Domain);
    CountCharConcat('@', n + ".", a);
    CountCharConcat('@', n, ".");
    DomainAtSigns();
  }

  lemma DomainAtSigns()
    ensures CountChar('@', ".") == 0 && CountChar('@', Domain) == 1
  {
  }

  /** The example of a roster row without an address. */
  lemma EmailExample()
    ensures Email(Text("Jos\U{E9}"), Text("P\U{E9}rez")) == "jose.perez@colegio.edu"
  {
    CleanJose();
    CleanPerez();
    JoinedDomain();
  }

  lemma JoinedDomain()
    ensures "jose" + "." + "perez" + Domain == "jose.perez@colegio.edu"
  {
  }

  // The cleaning of the two example names, one stage at a time.

  lemma CleanJose()
    ensures Clean("Jos\U{E9}") == "jose"
  {
    LowerJose();
    KeepJose();
    DeaccentJose();
  }

  lemma LowerJose()
    ensures Lower("Jos\U{E9}") == "jos\U{E9}"
  {
  }

  lemma KeepJose()
    ensures Strip("jos\U{E9}") == "jos\U{E9}" && RemoveSpaces("jos\U{E9}") == "jos\U{E9}"
  {
    RemoveSpacesNone("jos\U{E9}");
  }

  lemma DeaccentJose()
    ensures DeaccentAll("jos\U{E9}") == "jose"
  {
  }

  lemma CleanPerez()
    ensures Clean("P\U{E9}rez") == "perez"
  {
    LowerPerez();
    StripPerez();
    RemoveSpacesPerez();
    DeaccentPerez();
  }

  lemma LowerPerez()
    ensures Lower("P\U{E9}rez") == "p\U{E9}rez"
  {
  }

  lemma StripPerez()
    ensures Strip("p\U{E9}rez") == "p\U{E9}rez"
  {
  }

  lemma RemoveSpacesPerez()
    ensures RemoveSpaces("p\U{E9}rez") == "p\U{E9}rez"
  {
    RemoveSpacesNone("p\U{E9}rez");
  }

  lemma DeaccentPerez()
    ensures DeaccentAll("p\U{E9}rez") == "perez"
  {
  }

  /** One roster row after df_al['correo'] = df_al.apply(generar_correo, axis=1). */
  function FillRow(columns: seq<string>, r: Row): Result<Row>
  {
    match GenerarCorreo(columns, r)
    case Failure(e) => Failure(e)
    case Success(v) => Success(r["correo" := v])
  }

  /** The roster after synthesis; df_al['correo'] is a KeyError without the column. */
  function FillCorreosSpec(t: Table): Result<Table>
  {
    if "correo" !in t.columns then Failure(MissingColumn("correo"))
    else
      match MapAll((r: Row) => FillRow(t.columns, r), t.rows)
      case Failure(e) => Failure(e)
      case Success(rows) => Success(Table(t.columns, rows))
  }

  method FillCorreos(t: Table) returns (res: Result<Table>)
    ensures res == FillCorreosSpec(t)
  {
    if "correo" !in t.columns {
      return Failure(MissingColumn("correo"));
    }
    var f := (r: Row) => FillRow(t.columns, r);
    var rows: seq<Row> := [];
    var i := 0;
    while i < |t.rows|
      invariant 0 <= i <= |t.rows|
      invariant MapAll(f, t.rows[..i]) == Success(rows)
    {
      var g := FillRow(t.columns, t.rows[i]);
      MapAllSnoc(f, t.rows, i, rows);
      if g.Failure? {
        return Failure(g.error);
      }
      rows := rows + [g.value];
      i := i + 1;
    }
    assert t.rows[..i] == t.rows;
    return Success(Table(t.columns, rows));
  }

  /** After synthesis no address is null, every present address is kept,
      the missing ones are synthesised, nothing else changes; so
      correos_generados (nulls before minus nulls after) is the number of
      null addresses before: empty strings are rewritten but not counted. */
  lemma {:induction false} FillCorreosFacts(t: Table)
    requires FillCorreosSpec(t).Success?
    ensures var out := FillCorreosSpec(t).value;
      && out.columns == t.columns && |out.rows| == |t.rows|
      && CountNull(out.rows, "correo") == 0
      && (forall i :: 0 <= i < |out.rows| ==> "correo" in out.rows[i] && !NeedsCorreo(Cell(out.rows[i], "correo")))
      && CountNull(t.rows, "correo") - CountNull(out.rows, "correo") == CountNull(t.rows, "correo")
      && forall i :: 0 <= i < |t.rows| ==>
           (out.rows[i] == t.rows[i]["correo" := Cell(out.rows[i], "correo")])
           && (!NeedsCorreo(Cell(t.rows[i], "correo")) ==> out.rows[i] == t.rows[i]["correo" := Cell(t.rows[i], "correo")])
           && (NeedsCorreo(Cell(t.rows[i], "correo")) ==>
                 Cell(out.rows[i], "correo") == Text(Email(Cell(t.rows[i], "nombre"), Cell(t.rows[i], "apellido"))))
  {
    var f := (r: Row) => FillRow(t.columns, r);
    var out := FillCorreosSpec(t).value;
    assert MapAll(f, t.rows) == Success(out.rows);
    forall i | 0 <= i < |t.rows|
      ensures out.rows[i] == t.rows[i]["correo" := Cell(out.rows[i], "correo")]
      ensures "correo" in out.rows[i] && Cell(out.rows[i], "correo") != Null && !NeedsCorreo(Cell(out.rows[i], "correo"))
      ensures !NeedsCorreo(Cell(t.rows[i], "correo")) ==> out.rows[i] == t.rows[i]["correo" := Cell(t.rows[i], "correo")]
      ensures NeedsCorreo(Cell(t.rows[i], "correo")) ==>
        Cell(out.rows[i], "correo") == Text(Email(Cell(t.rows[i], "nombre"), Cell(t.rows[i], "apellido")))
    {
      assert f(t.rows[i]) == Success(out.rows[i]);
      FillRowFacts(t.columns, t.rows[i], out.rows[i]);
    }
    NoNullCount(out.rows, "correo");
  }

  /** One synthesised row: only the address changes, it is not null, an
      existing address is kept and a missing one is synthesised. */
  lemma FillRowFacts(columns: seq<string>, r: Row, out: Row)
    requires FillRow(columns, r) == Success(out)
    ensures out == r["correo" := Cell(out, "correo")]
    ensures "correo" in out && Cell(out, "correo") != Null && !NeedsCorreo(Cell(out, "correo"))
    ensures !NeedsCorreo(Cell(r, "correo")) ==> out == r["correo" := Cell(r, "correo")]
    ensures NeedsCorreo(Cell(r, "correo")) ==> Cell(out, "correo") == Text(Email(Cell(r, "nombre"), Cell(r, "apellido")))
  {
    var v := GenerarCorreo(columns, r).value;
    assert out == r["correo" := v];
    assert Cell(out, "correo") == v;
  }

/** Filling the addresses a second time changes nothing: after the first
      pass every row has an address that is neither null nor empty. */
  lemma FillCorreosIdempotent(t: Table)
    requires FillCorreosSpec(t).Success?
    ensures FillCorreosSpec(FillCorreosSpec(t).value) == FillCorreosSpec(t)
  {
    var out := FillCorreosSpec(t).value;
    FillCorreosFacts(t);
    var f := (r: Row) => FillRow(out.columns, r);
    forall i | 0 <= i < |out.rows| ensures f(out.rows[i]) == Success(out.rows[i]) {
      FillRowFixed(out.columns, out.rows[i]);
    }
    MapAllIdentity(f, out.rows);
  }

  /** A row that already has an address is left as it is. */
  lemma FillRowFixed(columns: seq<string>, r: Row)
    requires "correo" in r && !NeedsCorreo(r["correo"])
    ensures FillRow(columns, r) == Success(r)
  {
    assert r["correo" := r["correo"]] == r;
  }

    lemma {:induction false} NoNullCount(rows: seq<Row>, c: string)
    requires forall i :: 0 <= i < |rows| ==> Cell(rows[i], c) != Null
    ensures CountNull(rows, c) == 0
  {
    if rows != [] {
      NoNullCount(rows[..|rows| - 1], c);
    }
  }

  // =====================================================================
  // 3. Score normalisation: normalizar_nota

  /** round(x, 1), ties to the even tenth, on exact values. */
  function Round1(x: real): (r: real)
    ensures -0.05 <= r - x <= 0.05
    ensures (r * 10.0).Floor as real == r * 10.0
    ensures 0.0 <= x <= MaxScore ==> 0.0 <= r <= MaxScore
    ensures x < 0.0 ==> r <= 0.0
    ensures x > MaxScore ==> r >= MaxScore
  {
    var y := x * 10.0;
    var f := y.Floor;
    var d := y - f as real;
    var k := if d > 0.5 then f + 1 else if d < 0.5 then f else if f % 2 == 0 then f else f + 1;
    assert 0.0 <= d < 1.0;
    assert -0.5 <= k as real - y <= 0.5;
    assert (k as real / 10.0) * 10.0 == k as real && (k as real).Floor == k;
    assert k as real / 10.0 - x == (k as real - y) / 10.0;
    assert y <= 50.0 ==> k <= 50;
    assert y >= 0.0 ==> k >= 0;
    k as real / 10.0
  }

  /** max(0, min(5, r)). */
  function Clamp(r: real): (c: real)
    ensures 0.0 <= c <= MaxScore
    ensures 0.0 <= r <= MaxScore ==> c == r
  {
    if r < 0.0 then 0.0 else if r > MaxScore then MaxScore else r
  }

  /** The unrounded score lies outside [0, 5]; this is what is counted. */
  predicate OutOfRange(v: Value)
  {
    v.Num? && (v.x < 0.0 || v.x > MaxScore)
  }

  /** normalizar_nota: a null score stays null; a number is rounded to one
      decimal and then clamped into [0, 5]; comparing a text score with 0
      raises a TypeError. */
  function NormalizeNota(v: Value): (res: Result<Value>)
    ensures v == Null <==> res == Success(Null)
    ensures v.Text? <==> res == Failure(Uncomparable)
    ensures v.Num? ==> res.Success? && res.value.Num? && 0.0 <= res.value.x <= MaxScore
    ensures v.Num? && 0.0 <= v.x <= MaxScore ==> res == Success(Num(Round1(v.x)))
    ensures v.Num? && v.x < 0.0 ==> res == Success(Num(0.0))
    ensures v.Num? && v.x > MaxScore ==> res == Success(Num(MaxScore))
  {
    match v
    case Null => Success(Null)
    case Text(_) => Failure(Uncomparable)
    case Num(x) => Success(Num(Clamp(Round1(x))))
  }

  /** Rounding first and clamping first give the same score: the order only
      matters for the count, which looks at the unrounded value. */
  lemma RoundClampCommute(x: real)
    ensures Clamp(Round1(x)) == Round1(Clamp(x))
  {
    assert Round1(0.0) == 0.0;
    assert Round1(MaxScore) == MaxScore;
  }

  /** 5.04 is counted as out of range although it is stored as 5.0, the same
      value an in-range 4.96 gets. */
  lemma CountUsesUnroundedScore()
    ensures OutOfRange(Num(5.04)) && !OutOfRange(Num(4.96))
    ensures NormalizeNota(Num(5.04)) == NormalizeNota(Num(4.96)) == Success(Num(5.0))
  {
    assert Round1(5.04) == 5.0;
    assert Round1(4.96) == 5.0;
  }

  function NormRow(r: Row): Result<Row>
  {
    match NormalizeNota(Cell(r, "nota"))
    case Failure(e) => Failure(e)
    case Success(v) => Success(r["nota" := v])
  }

  /** The number of scores the counter of normalizar_nota sees out of range. */
  function CountOutOfRange(rows: seq<Row>): (n: nat)
    ensures n <= |rows|
  {
    if rows == [] then 0
    else CountOutOfRange(rows[..|rows| - 1]) + (if OutOfRange(Cell(rows[|rows| - 1], "nota")) then 1 else 0)
  }

  /** df_ca['nota'] = df_ca['nota'].apply(normalizar_nota) with the count
      calificaciones_fuera_rango. */
  function NormalizeScoresSpec(t: Table): Result<(Table, nat)>
  {
    if "nota" !in t.columns then Failure(MissingColumn("nota"))
    else
      match MapAll(NormRow, t.rows)
      case Failure(e) => Failure(e)
      case Success(rows) => Success((Table(t.columns, rows), CountOutOfRange(t.rows)))
  }

  method NormalizeScores(t: Table) returns (res: Result<(Table, nat)>)
    ensures res == NormalizeScoresSpec(t)
  {
    if "nota" !in t.columns {
      return Failure(MissingColumn("nota"));
    }
    var rows: seq<Row> := [];
    var fueraDeRango := 0;
    var i := 0;
    while i < |t.rows|
      invariant 0 <= i <= |t.rows|
      invariant MapAll(NormRow, t.rows[..i]) == Success(rows)
      invariant fueraDeRango == CountOutOfRange(t.rows[..i])
    {
      NormalizeStep(t.rows, i, rows);
      var nota := Cell(t.rows[i], "nota");
      if nota.Text? {
        return Failure(Uncomparable);
      }
      if nota.Num? && (nota.x < 0.0 || nota.x > MaxScore) {
        fueraDeRango := fueraDeRango + 1;
      }
      var v := if nota.Null? then Null else Num(Clamp(Round1(nota.x)));
      assert v == NormalizeNota(nota).value;
      rows := rows + [t.rows[i]["nota" := v]];
      i := i + 1;
    }
    assert t.rows[..i] == t.rows;
    return Success((Table(t.columns, rows), fueraDeRango));
  }

  /** One step of the normalisation loop: a text score fails the whole
      apply, any other score extends the result and the count. */
  lemma NormalizeStep(rows: seq<Row>, i: nat, acc: seq<Row>)
    requires i < |rows| && MapAll(NormRow, rows[..i]) == Success(acc)
    ensures Cell(rows[i], "nota").Text? ==> MapAll(NormRow, rows) == Failure(Uncomparable)
    ensures !Cell(rows[i], "nota").Text? ==>
      MapAll(NormRow, rows[..i + 1]) == Success(acc + [rows[i]["nota" := NormalizeNota(Cell(rows[i], "nota")).value]])
    ensures CountOutOfRange(rows[..i + 1]) == CountOutOfRange(rows[..i]) + (if OutOfRange(Cell(rows[i], "nota")) then 1 else 0)
  {
    assert rows[..i + 1][..i] == rows[..i];
    MapAllSnoc(NormRow, rows, i, acc);
  }

  /** A score column is normalised when every score is null or in [0, 5]. */
  predicate ScoresNormalized(rows: seq<Row>)
  {
    forall r :: r in rows ==> Cell(r, "nota") == Null || (Cell(r, "nota").Num? && 0.0 <= Cell(r, "nota").x <= MaxScore)
  }

  /** Normalisation keeps every grade row, changes only the score, and leaves
      every score null or in [0, 5]. */
  lemma NormalizeScoresFacts(t: Table)
    requires NormalizeScoresSpec(t).Success?
    ensures var out := NormalizeScoresSpec(t).value.0;
      && out.columns == t.columns && |out.rows| == |t.rows|
      && ScoresNormalized(out.rows)
      && forall i :: 0 <= i < |t.rows| ==>
           out.rows[i] == t.rows[i]["nota" := NormalizeNota(Cell(t.rows[i], "nota")).value]
  {
    var out := NormalizeScoresSpec(t).value.0;
    forall i | 0 <= i < |t.rows|
      ensures out.rows[i] == t.rows[i]["nota" := NormalizeNota(Cell(t.rows[i], "nota")).value]
    {
      assert NormRow(t.rows[i]) == Success(out.rows[i]);
    }
  }

  /** The example grade 7.8: stored as 5.0 and counted once. */
  lemma ScoreExample()
    ensures NormalizeNota(Num(7.8)) == Success(Num(5.0)) && OutOfRange(Num(7.8))
  {
  }

  // =====================================================================
  // 4. Merges, projection and metrics: the rest of transform

  datatype TransformMetrics = TransformMetrics(
    correosGenerados: int,
    alumnosConMatricula: nat,
    promedioNotasGeneral: Option<real>,  // None when pandas' mean is NaN
    totalAlumnosUnicos: nat,
    totalMateriasDiferentes: nat,
    registrosValidos: nat,
    registrosDescartados: nat)

  function SumScores(rows: seq<Row>, c: string): real
  {
    if rows == [] then 0.0
    else SumScores(rows[..|rows| - 1], c) + (if Cell(rows[|rows| - 1], c).Num? then Cell(rows[|rows| - 1], c).x else 0.0)
  }

  function CountScores(rows: seq<Row>, c: string): nat
  {
    if rows == [] then 0
    else CountScores(rows[..|rows| - 1], c) + (if Cell(rows[|rows| - 1], c).Num? then 1 else 0)
  }

  /** df_final['nota'].mean() if 'nota' in df_final.columns else 0: nulls are
      skipped, and a column without any score has no mean (NaN). */
  function MeanScore(t: Table): (m: Option<real>)
    ensures "nota" !in t.columns ==> m == Some(0.0)
    ensures "nota" in t.columns ==> (m.None? <==> CountScores(t.rows, "nota") == 0)
  {
    if "nota" !in t.columns then Some(0.0)
    else if CountScores(t.rows, "nota") == 0 then None
    else Some(SumScores(t.rows, "nota") / CountScores(t.rows, "nota") as real)
  }

  /** The rows with an enrolment year, df_final[df_final['anio'].notna()]. */
  function WithYear(rows: seq<Row>): (ws: seq<Row>)
    ensures forall r :: r in ws ==> r in rows
  {
    NonNullRows(rows, "anio")
  }

  /** The cleaned roster and grades, after steps 1 to 3. */
  datatype Cleaned = Cleaned(alumnos: Table, correosGenerados: int, calificaciones: Table, fueraDeRango: nat)

  /** Steps 1 and 2: the deduplicated roster with its synthesised
      addresses, and correos_generados. */
  function RosterSpec(al: Table): Result<(Table, int)>
  {
    if Key !in al.columns then Failure(MissingSubset(Key))
    else
      var deduped := Table(al.columns, KeepFirst(al.rows, Key));
      match FillCorreosSpec(deduped)
      case Failure(e) => Failure(e)
      case Success(filled) =>
        Success((filled, CountNull(deduped.rows, "correo") - CountNull(filled.rows, "correo")))
  }

  function CleanSpec(al: Table, ca: Table): Result<Cleaned>
  {
    match RosterSpec(al)
    case Failure(e) => Failure(e)
    case Success(roster) =>
      match NormalizeScoresSpec(ca)
      case Failure(e) => Failure(e)
      case Success(scored) => Success(Cleaned(roster.0, roster.1, scored.0, scored.1))
  }

  /** The joined table, before projection: grades ⟕ roster ⟕ enrolments. */
  function MergeSpec(c: Cleaned, ma: Table): Result<Table>
  {
    match LeftJoin(c.calificaciones, c.alumnos, Key)
    case Failure(e) => Failure(e)
    case Success(temp) => LeftJoin(temp, ma, Key)
  }

  /** The metrics and the projected fact table computed from the joined table. */
  function FinishSpec(c: Cleaned, joined: Table): (res: Result<(Table, TransformMetrics)>)
    ensures res.Failure? <==> "anio" !in joined.columns
    ensures res.Failure? ==> res.error == MissingColumn("anio")
    ensures res.Success? ==>
      && res.value.0.columns == Present(PreferredColumns, joined.columns)
      && |res.value.0.rows| == |joined.rows|
      && res.value.1.registrosValidos == |res.value.0.rows|
      && res.value.1.registrosDescartados == 0
      && res.value.1.correosGenerados == c.correosGenerados
  {
    if "anio" !in joined.columns then Failure(MissingColumn("anio"))
    else
      var conMatricula := |NonNullValues(WithYear(joined.rows), Key)|;
      var final := Project(joined, PreferredColumns);
      var materias := if "asignatura" in final.columns then |NonNullValues(final.rows, "asignatura")| else 0;
      Success((final, TransformMetrics(
        c.correosGenerados, conMatricula, MeanScore(final),
        |NonNullValues(final.rows, Key)|, materias, |final.rows|, 0)))
  }

  /** transform(df_al, df_ca, df_ma); `injectedFailure` stands for the
      date-seeded random draw that makes the integrity check fail. */
  function TransformSpec(al: Table, ca: Table, ma: Table, injectedFailure: bool): (res: Result<(Table, TransformMetrics)>)
    ensures CleanSpec(al, ca).Failure? ==> res == Failure(CleanSpec(al, ca).error)
    ensures CleanSpec(al, ca).Success? && injectedFailure ==> res == Failure(IntegrityCheckFailed)
    ensures res.Success? ==>
      && !injectedFailure
      && res.value.1.registrosValidos == |res.value.0.rows|
      && res.value.1.registrosDescartados == 0
      && res.value.1.correosGenerados == CleanSpec(al, ca).value.correosGenerados
  {
    match CleanSpec(al, ca)
    case Failure(e) => Failure(e)
    case Success(c) =>
      if injectedFailure then Failure(IntegrityCheckFailed)
      else
        match MergeSpec(c, ma)
        case Failure(e) => Failure(e)
        case Success(joined) => FinishSpec(c, joined)
  }

  /** Steps 1 and 2 as the source runs them: deduplication, then address
      synthesis, counting the null addresses before and after. */
  method CleanRoster(al: Table) returns (res: Result<(Table, int)>)
    ensures res == RosterSpec(al)
  {
    var dedup := DropDuplicates(al, Key);
    if dedup.Failure? { return Failure(dedup.error); }
    var dfAl := dedup.value;
    assert dfAl == Table(al.columns, KeepFirst(al.rows, Key));
    var faltantesAntes := CountNull(dfAl.rows, "correo");
    var filled := FillCorreos(dfAl);
    if filled.Failure? {
      assert RosterSpec(al) == Failure(filled.error);
      return Failure(filled.error);
    }
    dfAl := filled.value;
    return Success((dfAl, faltantesAntes - CountNull(dfAl.rows, "correo")));
  }

  /** The cleaning half of the transform: deduplication, address synthesis
      and score normalisation, in the source's order. */
  method CleanTables(al: Table, ca: Table) returns (res: Result<Cleaned>)
    ensures res == CleanSpec(al, ca)
  {
    var roster := CleanRoster(al);
    if roster.Failure? { return Failure(roster.error); }
    var scored := NormalizeScores(ca);
    if scored.Failure? { return Failure(scored.error); }
    return Success(Cleaned(roster.value.0, roster.value.1, scored.value.0, scored.value.1));
  }

  /** The transform step by step, as the source runs it. */
  method Transform(al: Table, ca: Table, ma: Table, injectedFailure: bool)
    returns (res: Result<(Table, TransformMetrics)>)
    ensures res == TransformSpec(al, ca, ma, injectedFailure)
  {
    var cleaned := CleanTables(al, ca);
    if cleaned.Failure? { return Failure(cleaned.error); }
    var c := cleaned.value;
    if injectedFailure { return Failure(IntegrityCheckFailed); }
    var temp := LeftJoin(c.calificaciones, c.alumnos, Key);
    if temp.Failure? { return Failure(temp.error); }
    var joined := LeftJoin(temp.value, ma, Key);
    if joined.Failure? { return Failure(joined.error); }
    res := FinishSpec(c, joined.value);
  }

  /** The distinct keys of the rows in `sub` are among those of `rows`. */
  lemma {:induction false} NonNullValuesSubset(sub: seq<Row>, rows: seq<Row>, c: string)
    requires forall r :: r in sub ==> r in rows
    ensures |NonNullValues(sub, c)| <= |NonNullValues(rows, c)|
  {
    assert NonNullValues(sub, c) <= NonNullValues(rows, c);
    SubsetCard(NonNullValues(sub, c), NonNullValues(rows, c));
  }

  lemma {:induction false} SubsetCard(a: set<Value>, b: set<Value>)
    requires a <= b
    ensures |a| <= |b|
    decreases |b|
  {
    if a != {} {
      var x :| x in a;
      SubsetCard(a - {x}, b - {x});
    }
  }

  /** The projection keeps the key cells of every row. */
  lemma ProjectKeepsKeys(t: Table)
    requires Key in t.columns
    ensures NonNullValues(Project(t, PreferredColumns).rows, Key) == NonNullValues(t.rows, Key)
  {
    var p := Project(t, PreferredColumns);
    PresentExact(PreferredColumns, t.columns);
    assert Key in p.columns;
    forall v | v in NonNullValues(t.rows, Key) ensures v in NonNullValues(p.rows, Key) {
      var r :| r in t.rows && Cell(r, Key) != Null && Cell(r, Key) == v;
      var i :| 0 <= i < |t.rows| && t.rows[i] == r;
      assert p.rows[i] in p.rows;
    }
    forall v | v in NonNullValues(p.rows, Key) ensures v in NonNullValues(t.rows, Key) {
      var r :| r in p.rows && Cell(r, Key) != Null && Cell(r, Key) == v;
      var i :| 0 <= i < |p.rows| && p.rows[i] == r;
      assert t.rows[i] in t.rows;
    }
  }

  /** The fact table's columns are the preferred ones the joined table has,
      in preferred order, and it keeps every joined row. */
  lemma TransformColumns(al: Table, ca: Table, ma: Table, injectedFailure: bool)
    requires TransformSpec(al, ca, ma, injectedFailure).Success?
    ensures var final := TransformSpec(al, ca, ma, injectedFailure).value.0;
      var joined := MergeSpec(CleanSpec(al, ca).value, ma).value;
      && final.columns == Present(PreferredColumns, joined.columns)
      && IsSubsequence(final.columns, PreferredColumns)
      && (forall c :: c in final.columns <==> c in PreferredColumns && c in joined.columns)
      && |final.rows| == |joined.rows|
  {
    PresentExact(PreferredColumns, MergeSpec(CleanSpec(al, ca).value, ma).value.columns);
  }

  /** What the transform metrics promise: registros_validos is the number of
      fact rows, registros_descartados is 0, alumnos_con_matricula does not
      exceed total_alumnos_unicos, and correos_generados counts the null
      addresses of the deduplicated roster. */
  lemma {:induction false} TransformMetricsFacts(al: Table, ca: Table, ma: Table, injectedFailure: bool)
    requires TransformSpec(al, ca, ma, injectedFailure).Success?
    ensures var (final, m) := TransformSpec(al, ca, ma, injectedFailure).value;
      && m.registrosValidos == |final.rows|
      && m.registrosDescartados == 0
      && m.alumnosConMatricula <= m.totalAlumnosUnicos
      && m.correosGenerados == CountNull(KeepFirst(al.rows, Key), "correo")
  {
    var c := CleanSpec(al, ca).value;
    var deduped := Table(al.columns, KeepFirst(al.rows, Key));
    FillCorreosFacts(deduped);
    var joined := MergeSpec(c, ma).value;
    var temp := LeftJoin(c.calificaciones, c.alumnos, Key).value;
    assert Key in c.calificaciones.columns;
    KeyInJoin(c.calificaciones.columns, c.alumnos.columns, Key);
    KeyInJoin(temp.columns, ma.columns, Key);
    ProjectKeepsKeys(joined);
    NonNullValuesSubset(WithYear(joined.rows), joined.rows, Key);
  }

  /** The cleaning fails on a roster without the key or without the
      address column, and succeeds only when the roster has both and the
      grades have a score column. */
  lemma CleanFailures(al: Table, ca: Table)
    ensures Key !in al.columns ==> CleanSpec(al, ca) == Failure(MissingSubset(Key))
    ensures Key in al.columns && "correo" !in al.columns ==> CleanSpec(al, ca) == Failure(MissingColumn("correo"))
    ensures CleanSpec(al, ca).Success? ==> Key in al.columns && "correo" in al.columns && "nota" in ca.columns
  {
  }

  /** After cleaning the roster has one row per student id, and the grades
      keep their columns and their rows' count. */
  lemma CleanedFacts(al: Table, ca: Table)
    requires CleanSpec(al, ca).Success?
    ensures var c := CleanSpec(al, ca).value;
      && c.alumnos.columns == al.columns
      && KeysDistinct(c.alumnos.rows, Key)
      && |c.alumnos.rows| == |KeepFirst(al.rows, Key)|
      && c.calificaciones.columns == ca.columns
      && |c.calificaciones.rows| == |ca.rows|
      && c.fueraDeRango == CountOutOfRange(ca.rows)
  {
    var c := CleanSpec(al, ca).value;
    var deduped := Table(al.columns, KeepFirst(al.rows, Key));
    FillCorreosFacts(deduped);
    NormalizeScoresFacts(ca);
    KeepFirstKeys(al.rows, Key);
    forall a, b | 0 <= a < b < |c.alumnos.rows|
      ensures Cell(c.alumnos.rows[a], Key) != Cell(c.alumnos.rows[b], Key)
    {
      assert Cell(c.alumnos.rows[a], Key) == Cell(deduped.rows[a], Key);
      assert Cell(c.alumnos.rows[b], Key) == Cell(deduped.rows[b], Key);
    }
  }

  /** The grade-first chain keeps every grade row: with the roster
      deduplicated the first merge gives one row per grade, so the fact table
      has as many rows as the merge with the enrolments gives the grades, and
      exactly as many as there are grades when no student repeats in the
      enrolments. */
  lemma GradeFirstRowCount(al: Table, ca: Table, ma: Table, injectedFailure: bool)
    requires TransformSpec(al, ca, ma, injectedFailure).Success?
    ensures var c := CleanSpec(al, ca).value;
      var temp := LeftJoin(c.calificaciones, c.alumnos, Key).value;
      && |temp.rows| == |ca.rows|
      && |TransformSpec(al, ca, ma, injectedFailure).value.0.rows| == TotalMultiplicity(temp.rows, ma.rows, Key)
      && (KeysDistinct(ma.rows, Key) ==> |TransformSpec(al, ca, ma, injectedFailure).value.0.rows| == |ca.rows|)
  {
    CleanedFacts(al, ca);
    var c := CleanSpec(al, ca).value;
    var temp := LeftJoin(c.calificaciones, c.alumnos, Key).value;
    JoinRowsOneEach(c.calificaciones.rows, ca.columns, c.alumnos, Key);
    JoinRowCount(temp.rows, temp.columns, ma, Key);
    if KeysDistinct(ma.rows, Key) {
      DistinctRightKeepsCount(temp.rows, ma.rows, Key);
    }
  }

  /** With no clashing column names the i-th row of the first merge carries
      the i-th grade row. */
  lemma GradeFirstRowsInOrder(al: Table, ca: Table, ma: Table, injectedFailure: bool)
    requires TransformSpec(al, ca, ma, injectedFailure).Success?
    requires NoNameClash(ca.columns, al.columns, Key)
    ensures var c := CleanSpec(al, ca).value;
      var temp := LeftJoin(c.calificaciones, c.alumnos, Key).value;
      && |temp.rows| == |ca.rows|
      && forall i :: 0 <= i < |ca.rows| ==>
           ExtendsLeft(temp.rows[i], c.calificaciones.rows[i], ca.columns, al.columns, Key)
  {
    CleanedFacts(al, ca);
    var c := CleanSpec(al, ca).value;
    JoinOneToOne(c.calificaciones.rows, ca.columns, c.alumnos, Key);
  }

  // =====================================================================
  // 5. The audit row: log_run and main

  /** One row of etl_monitor (the timestamp and the duration come from the
      clock and are left to the caller). */
  datatype MonitorRow = MonitorRow(
    registrosLeidos: int,
    registrosValidos: int,
    registrosDescartados: int,
    alumnosConMatricula: int,
    totalAlumnosUnicos: int,
    totalMateriasDiferentes: int,
    correosGenerados: int,
    promedioNotasGeneral: Option<real>,
    estado: string,
    mensaje: string)

  /** log_run: the row it inserts, with the message cut to 500 characters. */
  function LogRun(leidos: int, m: TransformMetrics, estado: string, mensaje: string): (row: MonitorRow)
    ensures |row.mensaje| <= 500 && |row.mensaje| <= |mensaje| && row.mensaje == mensaje[..|row.mensaje|]
    ensures |mensaje| <= 500 ==> row.mensaje == mensaje
  {
    MonitorRow(leidos, m.registrosValidos, m.registrosDescartados, m.alumnosConMatricula,
               m.totalAlumnosUnicos, m.totalMateriasDiferentes, m.correosGenerados,
               m.promedioNotasGeneral, estado, Take(mensaje, 500))
  }

  /** The zero metrics main passes to log_run after a failure. */
  const ZeroMetrics: TransformMetrics := TransformMetrics(0, 0, Some(0.0), 0, 0, 0, 0)

  datatype Sources = Sources(alumnos: Table, calificaciones: Table, matriculas: Table)

  /** What main returns and the audit row it asks log_run to insert. */
  datatype RunOutcome = RunOutcome(succeeded: bool, audit: MonitorRow)

  /** main(): extraction (its result is an input here), transformation, the
      load (whose failure, if any, is an input) and the audit row. */
  function RunPipeline(extracted: Result<Sources>, injectedFailure: bool, loadFailure: Option<Error>): (o: RunOutcome)
    ensures o.succeeded <==>
      && extracted.Success?
      && TransformSpec(extracted.value.alumnos, extracted.value.calificaciones, extracted.value.matriculas, injectedFailure).Success?
      && loadFailure.None?
    ensures o.audit.estado == (if o.succeeded then "OK" else "FAIL")
    ensures !o.succeeded ==> o.audit.registrosLeidos == 0 && o.audit.registrosValidos == 0
  {
    match extracted
    case Failure(e) => FailedRun(e)
    case Success(src) =>
      match TransformSpec(src.alumnos, src.calificaciones, src.matriculas, injectedFailure)
      case Failure(e) => FailedRun(e)
      case Success(out) =>
        match loadFailure
        case Some(e) => FailedRun(e)
        case None =>
          var leidos := |src.alumnos.rows| + |src.calificaciones.rows| + |src.matriculas.rows|;
          RunOutcome(true, LogRun(leidos, out.1, "OK", OkMessage))
  }

  function FailedRun(e: Error): RunOutcome
  {
    RunOutcome(false, LogRun(0, ZeroMetrics, "FAIL", "Error: " + Message(e)))
  }

  /** A failed run is recorded with every count 0, a mean of 0.0, status
      FAIL and the first 500 characters of "Error: " followed by str(e). */
  lemma FailedRunRow(e: Error)
    ensures var o := FailedRun(e);
      && !o.succeeded
      && o.audit == MonitorRow(0, 0, 0, 0, 0, 0, 0, Some(0.0), "FAIL", Take("Error: " + Message(e), 500))
      && o.audit.mensaje[..7] == "Error: "
  {
    var m := "Error: " + Message(e);
    assert |m| >= 7 && m[..7] == "Error: ";
    assert Take(m, 500)[..7] == m[..7];
  }

  /** Every failing stage, the extraction, the transform or the load, ends
      in the FAIL row of the exception that stage raised, and a run fails
      only through one of them. */
  lemma RunFailureRecorded(extracted: Result<Sources>, injectedFailure: bool, loadFailure: Option<Error>)
    ensures extracted.Failure? ==>
      RunPipeline(extracted, injectedFailure, loadFailure) == FailedRun(extracted.error)
    ensures extracted.Success? ==>
      var src := extracted.value;
      var t := TransformSpec(src.alumnos, src.calificaciones, src.matriculas, injectedFailure);
      && (t.Failure? ==> RunPipeline(extracted, injectedFailure, loadFailure) == FailedRun(t.error))
      && (t.Success? && loadFailure.Some? ==> RunPipeline(extracted, injectedFailure, loadFailure) == FailedRun(loadFailure.value))
      && (t.Success? && loadFailure.None? ==> RunPipeline(extracted, injectedFailure, loadFailure).succeeded)
  {
  }

  /** On the days the integrity check is drawn to fail, a run whose sources
      clean without error is recorded as failed with the validation message. */
  lemma InjectedFailureRecorded(src: Sources, loadFailure: Option<Error>)
    requires CleanSpec(src.alumnos, src.calificaciones).Success?
    ensures RunPipeline(Success(src), true, loadFailure) == FailedRun(IntegrityCheckFailed)
  {
  }

  /** A run succeeds exactly when every stage does, and then records
      through log_run status OK, the raw row count of the three sources as
      registros_leidos and every transform metric as it is. */
  lemma SucceededRunRow(src: Sources, injectedFailure: bool, loadFailure: Option<Error>)
    ensures var o := RunPipeline(Success(src), injectedFailure, loadFailure);
      var t := TransformSpec(src.alumnos, src.calificaciones, src.matriculas, injectedFailure);
      && (o.succeeded <==> t.Success? && loadFailure.None?)
      && (o.succeeded ==>
            && o.audit == LogRun(|src.alumnos.rows| + |src.calificaciones.rows| + |src.matriculas.rows|, t.value.1, "OK", OkMessage)
            && o.audit.estado == "OK" && o.audit.mensaje == OkMessage
            && o.audit.registrosLeidos == |src.alumnos.rows| + |src.calificaciones.rows| + |src.matriculas.rows|
            && o.audit.registrosValidos == t.value.1.registrosValidos
            && o.audit.registrosDescartados == t.value.1.registrosDescartados
            && o.audit.alumnosConMatricula == t.value.1.alumnosConMatricula
            && o.audit.totalAlumnosUnicos == t.value.1.totalAlumnosUnicos
            && o.audit.totalMateriasDiferentes == t.value.1.totalMateriasDiferentes
            && o.audit.correosGenerados == t.value.1.correosGenerados
            && o.audit.promedioNotasGeneral == t.value.1.promedioNotasGeneral)
  {
    assert |OkMessage| <= 500;
  }

  /** What the OK row's counts mean: registros_validos is the fact table's
      row count, nothing is counted as discarded, correos_generados is the
      number of deduplicated roster rows that had no address, and no more
      students have an enrolment than there are students. */
  lemma SucceededRunMetrics(src: Sources, injectedFailure: bool, loadFailure: Option<Error>)
    ensures var o := RunPipeline(Success(src), injectedFailure, loadFailure);
      var t := TransformSpec(src.alumnos, src.calificaciones, src.matriculas, injectedFailure);
      o.succeeded ==>
        && o.audit.registrosValidos == |t.value.0.rows|
        && o.audit.registrosDescartados == 0
        && o.audit.correosGenerados == CountNull(KeepFirst(src.alumnos.rows, Key), "correo")
        && o.audit.alumnosConMatricula <= o.audit.totalAlumnosUnicos
  {
    var t := TransformSpec(src.alumnos, src.calificaciones, src.matriculas, injectedFailure);
    SucceededRunRow(src, injectedFailure, loadFailure);
    if t.Success? {
      TransformMetricsFacts(src.alumnos, src.calificaciones, src.matriculas, injectedFailure);
    }
  }
}

/** Tables as the two pipelines see them after parsing: a list of column
    names and a list of rows, each row a mapping from column name to a
    nullable cell value. pandas' NaN and None are both `Null`. */
module Tables {

  datatype Option<T> = None | Some(value: T)

  /** The exceptions the modelled stages can raise, or that reach them from
      the collaborators outside the model (file reading, the SQLite load). */
  datatype Error =
    | MissingColumn(name: string)       // KeyError from df[col] or row[col]
    | MissingSubset(name: string)       // KeyError from drop_duplicates(subset=[col])
    | NoColumns                         // IndexError from df.columns[0] on a table without columns
    | Uncomparable                      // TypeError from comparing a text score with a number
    | IntegrityCheckFailed              // the validation failure injected by etl_simple
    | SourceUnreadable(reason: string)  // raised while reading a source file
    | StoreFailed(reason: string)       // raised while loading the fact table

  datatype Result<T> = Success(value: T) | Failure(error: Error)

  const IntegrityMessage: string :=
    "Validaci\U{F3}n de integridad de datos fall\U{F3} - datos inconsistentes detectados"

  /** str(e) for the exceptions of the model. */
  function Message(e: Error): (s: string)
    ensures !(e.SourceUnreadable? || e.StoreFailed?) ==> |s| > 0
  {
    match e
    case MissingColumn(c) => "'" + c + "'"
    case MissingSubset(c) => "Index(['" + c + "'], dtype='object')"
    case NoColumns => "index 0 is out of bounds for axis 0 with size 0"
    case Uncomparable => "'<' not supported between instances of 'str' and 'int'"
    case IntegrityCheckFailed => IntegrityMessage
    case SourceUnreadable(s) => s
    case StoreFailed(s) => s
  }

  /** A cell value. Integers and floats are both exact numbers here; pandas
      compares them by value (1 == 1.0) when it merges or deduplicates. */
  datatype Value = Null | Num(x: real) | Text(s: string)

  type Row = map<string, Value>

  datatype Table = Table(columns: seq<string>, rows: seq<Row>)

  /** The value of column `c` in row `r`; a column the row lacks reads as null. */
  function Cell(r: Row, c: string): Value
  {
    if c in r then r[c] else Null
  }

  /** Every row carries exactly the table's columns, and no column is named twice. */
  ghost predicate WellFormed(t: Table)
  {
    Distinct(t.columns) && forall r :: r in t.rows ==> r.Keys == set c | c in t.columns
  }

  predicate Distinct<T(==)>(s: seq<T>)
  {
    forall i, j :: 0 <= i < j < |s| ==> s[i] != s[j]
  }

  /** The set of values column `key` takes over `rows`, nulls included. */
  function KeySet(rows: seq<Row>, key: string): (ks: set<Value>)
  {
    if rows == [] then {} else KeySet(rows[..|rows| - 1], key) + {Cell(rows[|rows| - 1], key)}
  }

  lemma {:induction false} KeySetMembers(rows: seq<Row>, key: string, v: Value)
    ensures v in KeySet(rows, key) <==> exists i :: 0 <= i < |rows| && Cell(rows[i], key) == v
  {
    if rows != [] {
      var init := rows[..|rows| - 1];
      KeySetMembers(init, key, v);
      if v in KeySet(init, key) {
        var i :| 0 <= i < |init| && Cell(init[i], key) == v;
        assert rows[i] == init[i];
      }
      if exists i :: 0 <= i < |rows| && Cell(rows[i], key) == v {
        var i :| 0 <= i < |rows| && Cell(rows[i], key) == v;
        if i < |init| { assert init[i] == rows[i]; }
      }
    }
  }

  /** No two rows share a value in column `key`. */
  predicate KeysDistinct(rows: seq<Row>, key: string)
  {
    forall i, j :: 0 <= i < j < |rows| ==> Cell(rows[i], key) != Cell(rows[j], key)
  }

  /** Appending a row with a new key keeps the keys distinct. */
  lemma KeysDistinctSnoc(rows: seq<Row>, last: Row, key: string)
    requires KeysDistinct(rows, key) && Cell(last, key) !in KeySet(rows, key)
    ensures KeysDistinct(rows + [last], key)
    ensures KeySet(rows + [last], key) == KeySet(rows, key) + {Cell(last, key)}
  {
    var k := rows + [last];
    assert k[..|k| - 1] == rows;
    forall j | 0 <= j < |rows| ensures Cell(rows[j], key) != Cell(last, key) {
      KeySetMembers(rows, key, Cell(rows[j], key));
    }
    forall a, b | 0 <= a < b < |k| ensures Cell(k[a], key) != Cell(k[b], key) {
      if b < |rows| { assert k[a] == rows[a] && k[b] == rows[b]; }
      else { assert k[a] == rows[a] && k[b] == last; }
    }
  }

  /** The number of rows whose column `c` is null (pandas' isna().sum()). */
  function CountNull(rows: seq<Row>, c: string): (n: nat)
    ensures n <= |rows|
  {
    if rows == [] then 0
    else CountNull(rows[..|rows| - 1], c) + (if Cell(rows[|rows| - 1], c) == Null then 1 else 0)
  }

  /** The distinct non-null values of column `c` (what pandas' nunique counts). */
  function NonNullValues(rows: seq<Row>, c: string): set<Value>
  {
    set r | r in rows && Cell(r, c) != Null :: Cell(r, c)
  }

  /** `a` can be obtained from `b` by deleting elements: order is kept. */
  predicate IsSubsequence<T(==)>(a: seq<T>, b: seq<T>)
    decreases |b|
  {
    if a == [] then true
    else if b == [] then false
    else if a[|a| - 1] == b[|b| - 1] then IsSubsequence(a[..|a| - 1], b[..|b| - 1])
    else IsSubsequence(a, b[..|b| - 1])
  }

  lemma {:induction false} SubsequenceExtend<T>(a: seq<T>, b: seq<T>, x: T)
    requires IsSubsequence(a, b)
    ensures IsSubsequence(a, b + [x])
    decreases |b|, 1
  {
    var b' := b + [x];
    assert b'[..|b'| - 1] == b;
    if a != [] && a[|a| - 1] == x {
      SubsequenceDropLast(a, b);
    }
  }

  lemma {:induction false} SubsequenceDropLast<T>(a: seq<T>, b: seq<T>)
    requires a != [] && IsSubsequence(a, b)
    ensures IsSubsequence(a[..|a| - 1], b)
    decreases |b|, 0
  {
    var a', b' := a[..|a| - 1], b[..|b| - 1];
    if a[|a| - 1] == b[|b| - 1] {
      SubsequenceExtend(a', b', b[|b| - 1]);
      assert b' + [b[|b| - 1]] == b;
    } else {
      SubsequenceDropLast(a, b');
      SubsequenceExtend(a', b', b[|b| - 1]);
      assert b' + [b[|b| - 1]] == b;
    }
  }

  lemma {:induction false} SubsequenceAppend<T>(a: seq<T>, b: seq<T>, x: T)
    requires IsSubsequence(a, b)
    ensures IsSubsequence(a + [x], b + [x])
  {
    assert (a + [x])[..|a|] == a;
    assert (b + [x])[..|b|] == b;
  }

  lemma {:induction false} SubsequenceRefl<T>(a: seq<T>)
    ensures IsSubsequence(a, a)
  {
    if a != [] {
      SubsequenceRefl(a[..|a| - 1]);
      SubsequenceAppend(a[..|a| - 1], a[..|a| - 1], a[|a| - 1]);
      assert a[..|a| - 1] + [a[|a| - 1]] == a;
    }
  }

  /** Applies `f` to every element in order and stops at the first failure,
      as pandas' apply does when the applied function raises. */
  function MapAll<A, B>(f: A -> Result<B>, xs: seq<A>): (r: Result<seq<B>>)
    ensures r.Success? ==> |r.value| == |xs| && forall i :: 0 <= i < |xs| ==> f(xs[i]) == Success(r.value[i])
    ensures r.Failure? ==> exists i :: 0 <= i < |xs| && f(xs[i]) == Failure(r.error)
  {
    if xs == [] then Success([])
    else
      match MapAll(f, xs[..|xs| - 1])
      case Failure(e) => Failure(e)
      case Success(ys) =>
        match f(xs[|xs| - 1])
        case Failure(e) => Failure(e)
        case Success(y) => Success(ys + [y])
  }

  /** One more element: the map over xs[..i+1] extends the map over xs[..i],
      or the whole map fails with that element's error. */
  lemma MapAllSnoc<A, B>(f: A -> Result<B>, xs: seq<A>, i: nat, ys: seq<B>)
    requires i < |xs| && MapAll(f, xs[..i]) == Success(ys)
    ensures f(xs[i]).Success? ==> MapAll(f, xs[..i + 1]) == Success(ys + [f(xs[i]).value])
    ensures f(xs[i]).Failure? ==> MapAll(f, xs) == Failure(f(xs[i]).error)
  {
    assert xs[..i + 1][..i] == xs[..i];
    if f(xs[i]).Failure? {
      MapAllPrefixFailure(f, xs, i + 1);
    }
  }

  /** A function that returns every element unchanged maps the sequence to itself. */
  lemma {:induction false} MapAllIdentity<A>(f: A -> Result<A>, xs: seq<A>)
    requires forall i :: 0 <= i < |xs| ==> f(xs[i]) == Success(xs[i])
    ensures MapAll(f, xs) == Success(xs)
  {
    if xs != [] {
      var init := xs[..|xs| - 1];
      assert forall i :: 0 <= i < |init| ==> init[i] == xs[i];
      MapAllIdentity(f, init);
      assert init + [xs[|xs| - 1]] == xs;
    }
  }

  /** Once a prefix fails, the whole map fails with the same error. */
  lemma {:induction false} MapAllPrefixFailure<A, B>(f: A -> Result<B>, xs: seq<A>, n: nat)
    requires n <= |xs| && MapAll(f, xs[..n]).Failure?
    ensures MapAll(f, xs) == MapAll(f, xs[..n])
    decreases |xs| - n
  {
    if n < |xs| {
      var init := xs[..|xs| - 1];
      assert init[..n] == xs[..n];
      MapAllPrefixFailure(f, init, n);
    } else {
      assert xs[..n] == xs;
    }
  }
}

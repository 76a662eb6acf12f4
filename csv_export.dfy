/**
 * The column selection of `json_array_to_csv` in generate_nodes.py: the header
 * is the sorted set of whitelisted keys that occur in some row, and every row
 * is cut down to those columns.
 */
module CsvExport {
  import opened Wrappers
  import Forest

  /** `headers_clue`: the only keys that may become columns. */
  const HeadersClue: seq<string> := ["timestamp", "NodeId", "BufferHealth", "SessionId", "Source"]

  // ---------------------------------------------------------------------------
  // Python's ordering of strings

  /** `a < b` on Python strings: code point by code point, a proper prefix first. */
  predicate Less(a: string, b: string)
  {
    if |a| == 0 then |b| > 0
    else |b| > 0 && (if a[0] == b[0] then Less(a[1..], b[1..]) else a[0] < b[0])
  }

  /** No string sorts before itself. */
  lemma {:induction false} LessIrreflexive(a: string)
    ensures !Less(a, a)
  {
    if |a| > 0 {
      LessIrreflexive(a[1..]);
    }
  }

  /** The order is transitive. */
  lemma {:induction false} LessTransitive(a: string, b: string, c: string)
    requires Less(a, b) && Less(b, c)
    ensures Less(a, c)
  {
    if |a| > 0 && a[0] == b[0] && b[0] == c[0] {
      LessTransitive(a[1..], b[1..], c[1..]);
    }
  }

  /** Of two distinct strings, one sorts first. */
  lemma {:induction false} LessTotal(a: string, b: string)
    requires a != b
    ensures Less(a, b) || Less(b, a)
  {
    if |a| > 0 && |b| > 0 && a[0] == b[0] {
      assert a == [a[0]] + a[1..] && b == [b[0]] + b[1..];
      LessTotal(a[1..], b[1..]);
    }
  }

  /** Two strings never sort before each other. */
  lemma LessAsymmetric(a: string, b: string)
    requires Less(a, b)
    ensures !Less(b, a)
  {
    if Less(b, a) {
      LessTransitive(a, b, a);
      LessIrreflexive(a);
    }
  }

  /** In increasing order, without repetitions. */
  predicate StrictlySorted(s: seq<string>)
  {
    forall i, j :: 0 <= i < j < |s| ==> Less(s[i], s[j])
  }

  // ---------------------------------------------------------------------------
  // `sorted` of a set of keys

  /** Inserts `x` into a strictly sorted list, unless it is already there. */
  function Insert(x: string, s: seq<string>): (r: seq<string>)
    requires StrictlySorted(s)
    ensures StrictlySorted(r)
    ensures forall y :: y in r <==> y == x || y in s
  {
    if |s| == 0 then [x]
    else if x == s[0] then s
    else if Less(x, s[0]) then
      assert StrictlySorted([x] + s) by {
        forall j | 0 < j < |s| {
          LessTransitive(x, s[0], s[j]);
        }
      }
      [x] + s
    else
      LessTotal(x, s[0]);
      var tail := Insert(x, s[1..]);
      assert StrictlySorted([s[0]] + tail) by {
        forall j | 0 <= j < |tail|
          ensures Less(s[0], tail[j])
        {
          assert tail[j] in tail;
          if tail[j] != x {
            assert tail[j] in s[1..];
            var k :| 0 <= k < |s[1..]| && s[1..][k] == tail[j];
            assert s[k + 1] == tail[j];
          }
        }
      }
      [s[0]] + tail
  }

  /** `sorted(set(xs))`. */
  function SortDistinct(xs: seq<string>): (r: seq<string>)
    ensures StrictlySorted(r)
    ensures forall y :: y in r <==> y in xs
  {
    if |xs| == 0 then []
    else
      var init := xs[..|xs| - 1];
      assert xs == init + [xs[|xs| - 1]];
      Insert(xs[|xs| - 1], SortDistinct(init))
  }

  /** Two strictly sorted lists with the same elements are the same list. */
  lemma {:induction false} SortedUnique(a: seq<string>, b: seq<string>)
    requires StrictlySorted(a) && StrictlySorted(b)
    requires forall y :: y in a <==> y in b
    ensures a == b
  {
    assert |a| > 0 ==> a[0] in b;
    assert |b| > 0 ==> b[0] in a;
    if |a| > 0 && |b| > 0 {
      if a[0] != b[0] {
        assert b[0] in b && a[0] in a;
        var i :| 0 <= i < |a| && a[i] == b[0];
        var j :| 0 <= j < |b| && b[j] == a[0];
        assert Less(a[0], b[0]);
        LessAsymmetric(a[0], b[0]);
        assert false;
      }
      forall y
        ensures y in a[1..] ==> y in b[1..]
      {
        TailMember(a, b, y);
      }
      forall y
        ensures y in b[1..] ==> y in a[1..]
      {
        TailMember(b, a, y);
      }
      SortedUnique(a[1..], b[1..]);
      assert a == [a[0]] + a[1..] && b == [b[0]] + b[1..];
    }
  }

  /** Past the common least element, an element of one list lies past it in the other. */
  lemma TailMember(a: seq<string>, b: seq<string>, y: string)
    requires StrictlySorted(a) && StrictlySorted(b)
    requires forall z :: z in a <==> z in b
    requires |a| > 0 && |b| > 0 && a[0] == b[0]
    ensures y in a[1..] ==> y in b[1..]
  {
    if y in a[1..] {
      var i :| 0 <= i < |a[1..]| && a[1..][i] == y;
      assert a[i + 1] == y;
      assert Less(a[0], y);
      LessIrreflexive(y);
      assert y in a;
      var j :| 0 <= j < |b| && b[j] == y;
      assert j != 0;
      assert b[1..][j - 1] == y;
    }
  }

  // ---------------------------------------------------------------------------
  // Field names

  /** Some row has the key `k`. */
  predicate InSomeRow<V>(k: string, data: seq<map<string, V>>)
  {
    exists i :: 0 <= i < |data| && k in data[i]
  }

  /** `{k for row in data for k in row.keys() if k in headers_clue}`. */
  ghost function KeySet<V>(data: seq<map<string, V>>): set<string>
  {
    set i, k | 0 <= i < |data| && k in data[i] && k in HeadersClue :: k
  }

  /** The keys of `keys` that occur in some row. */
  function Present<V>(keys: seq<string>, data: seq<map<string, V>>): (r: seq<string>)
    ensures forall k :: k in r <==> k in keys && InSomeRow(k, data)
  {
    if |keys| == 0 then []
    else (if InSomeRow(keys[0], data) then [keys[0]] else []) + Present(keys[1..], data)
  }

  /**
   * `fieldnames`: sorted, each once, and exactly the whitelisted keys that occur
   * in some row; so `level` is never a column.
   */
  function FieldNames<V>(data: seq<map<string, V>>): (cols: seq<string>)
    ensures StrictlySorted(cols)
    ensures forall k :: k in cols <==> k in KeySet(data)
    ensures forall k :: k in cols ==> k in HeadersClue
    ensures "level" !in cols
  {
    var cols := SortDistinct(Present(HeadersClue, data));
    assert forall k :: k in KeySet(data) <==> k in HeadersClue && InSomeRow(k, data);
    cols
  }

  /** The columns written for rows with the generator's record keys, in Python's sort order. */
  lemma GeneratedColumns<V>(data: seq<map<string, V>>)
    requires |data| > 0
    requires forall i :: 0 <= i < |data| ==> data[i].Keys == Forest.RecordKeys
    ensures FieldNames(data) == ["BufferHealth", "NodeId", "SessionId", "Source", "timestamp"]
  {
    var expected := ["BufferHealth", "NodeId", "SessionId", "Source", "timestamp"];
    assert StrictlySorted(expected) by {
      assert Less(expected[0], expected[1]) && Less(expected[1], expected[2]);
      assert Less(expected[2], expected[3]) && Less(expected[3], expected[4]);
      forall i, j | 0 <= i < j < 5
        ensures Less(expected[i], expected[j])
      {
        if j > i + 1 {
          var k := i + 1;
          while k < j
            invariant i < k <= j
            invariant Less(expected[i], expected[k])
          {
            LessTransitive(expected[i], expected[k], expected[k + 1]);
            k := k + 1;
          }
        }
      }
    }
    forall k
      ensures k in FieldNames(data) <==> k in expected
    {
      assert k in data[0] <==> k in Forest.RecordKeys;
    }
    SortedUnique(FieldNames(data), expected);
  }

  // ---------------------------------------------------------------------------
  // The exported table

  /** What the export produces from an array file's rows. */
  datatype Export<V> =
    | NoRows                                       // "No rows found": nothing is written
    | MissingKey(row: nat, key: string)            // `x[key]` raises KeyError
    | Table(header: seq<string>, rows: seq<map<string, V>>)

  /** The first column, in column order, that `row` lacks. */
  function FirstMissing<V>(row: map<string, V>, cols: seq<string>): (m: Option<string>)
    ensures m.Some? ==> m.value in cols && m.value !in row
    ensures m.Some? ==> exists j :: 0 <= j < |cols| && cols[j] == m.value && forall k :: 0 <= k < j ==> cols[k] in row
    ensures m.None? ==> forall k :: k in cols ==> k in row
  {
    if |cols| == 0 then None
    else if cols[0] !in row then Some(cols[0])
    else FirstMissing(row, cols[1..])
  }

  /** The row cut down to the columns `cols`, all of which it has. */
  function Restrict<V>(row: map<string, V>, cols: seq<string>): (r: map<string, V>)
    requires forall k :: k in cols ==> k in row
    ensures r.Keys == (set k | k in cols)
    ensures forall k :: k in cols ==> r[k] == row[k]
  {
    map k | k in cols :: row[k]
  }

  /** The first row, in row order, that lacks one of the columns `cols`. */
  function FirstBadRow<V>(data: seq<map<string, V>>, cols: seq<string>): (b: Option<nat>)
    ensures b.Some? ==>
      b.value < |data| && FirstMissing(data[b.value], cols).Some? &&
      forall i :: 0 <= i < b.value ==> FirstMissing(data[i], cols).None?
    ensures b.None? ==> forall i :: 0 <= i < |data| ==> FirstMissing(data[i], cols).None?
  {
    if |data| == 0 then None
    else if FirstMissing(data[0], cols).Some? then Some(0)
    else
      match FirstBadRow(data[1..], cols)
      case None => None
      case Some(b) => Some(b + 1)
  }

  /** `[{key: x[key] for key in fieldnames} for x in data]`; the error names the row and key of the KeyError. */
  function Project<V>(data: seq<map<string, V>>, cols: seq<string>): (r: Result<seq<map<string, V>>, (nat, string)>)
    ensures r.Success? ==>
      |r.value| == |data| &&
      forall i :: 0 <= i < |data| ==>
        r.value[i].Keys == (set k | k in cols) &&
        forall k :: k in cols ==> k in data[i] && r.value[i][k] == data[i][k]
    ensures r.Failure? ==>
      r.error.0 < |data| && r.error.1 in cols && r.error.1 !in data[r.error.0] &&
      forall i :: 0 <= i < r.error.0 ==> forall k :: k in cols ==> k in data[i]
    ensures r.Failure? ==> r.error.0 < |data| && FirstMissing(data[r.error.0], cols) == Some(r.error.1)
  {
    match FirstBadRow(data, cols)
    case Some(i) => Failure((i, FirstMissing(data[i], cols).value))
    case None => Success(seq(|data|, i requires 0 <= i < |data| => Restrict(data[i], cols)))
  }

  /** Lines 152-158 of `json_array_to_csv`: the header and rows handed to the CSV writer. */
  function ArrayToCsv<V>(data: seq<map<string, V>>): (e: Export<V>)
    ensures e.NoRows? <==> data == []
    ensures e.MissingKey? ==>
      e.row < |data| && e.key in FieldNames(data) && e.key !in data[e.row]
    ensures e.MissingKey? ==>
      e.row < |data| && FirstMissing(data[e.row], FieldNames(data)) == Some(e.key) &&
      forall i :: 0 <= i < e.row ==> forall k :: k in FieldNames(data) ==> k in data[i]
    ensures e.MissingKey? <==>
      data != [] && exists i, k :: 0 <= i < |data| && k in FieldNames(data) && k !in data[i]
    ensures e.Table? ==>
      e.header == FieldNames(data) && |e.rows| == |data| &&
      forall i :: 0 <= i < |data| ==>
        e.rows[i].Keys == (set k | k in e.header) &&
        forall k :: k in e.header ==> e.rows[i][k] == data[i][k]
  {
    if data == [] then NoRows
    else
      var cols := FieldNames(data);
      match Project(data, cols)
      case Failure((row, key)) => MissingKey(row, key)
      case Success(rows) => Table(cols, rows)
  }

  /** Rows built by the generator always export: no KeyError, five columns, one row each. */
  lemma GeneratedRowsExport<V>(data: seq<map<string, V>>)
    requires |data| > 0
    requires forall i :: 0 <= i < |data| ==> data[i].Keys == Forest.RecordKeys
    ensures ArrayToCsv(data).Table?
    ensures ArrayToCsv(data).header == ["BufferHealth", "NodeId", "SessionId", "Source", "timestamp"]
    ensures |ArrayToCsv(data).rows| == |data|
  {
    GeneratedColumns(data);
    var cols := FieldNames(data);
    forall i, k | 0 <= i < |data| && k in cols
      ensures k in data[i]
    {
      assert k in Forest.RecordKeys;
    }
  }
}

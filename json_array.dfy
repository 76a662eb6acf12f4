/**
 * The array framing of `write_json_array` in generate_nodes.py: an opening
 * bracket line, the rows' JSON texts separated by ",\n", and a closing bracket
 * line. The JSON text of one row is the `dump` parameter; the file is the text
 * written to it, accumulated in order.
 */
module JsonArray {

  /** `sep.join(parts)`. */
  function Join(parts: seq<string>, sep: string): string
  {
    if |parts| == 0 then ""
    else if |parts| == 1 then parts[0]
    else parts[0] + sep + Join(parts[1..], sep)
  }

  /** The JSON texts of the rows, in row order. */
  function Dumps<R>(rows: seq<R>, dump: R -> string): (ds: seq<string>)
    ensures |ds| == |rows|
    ensures forall i :: 0 <= i < |rows| ==> ds[i] == dump(rows[i])
  {
    seq(|rows|, i requires 0 <= i < |rows| => dump(rows[i]))
  }

  /** The text of an array file holding the given row texts. */
  function Framed(ds: seq<string>): string
  {
    "[\n" + Join(ds, ",\n") + "\n]\n"
  }

  /** `write_json_array`: writes the opening line, each row after a ",\n" separator but the first, and the closing line. */
  method WriteJsonArray<R>(rows: seq<R>, dump: R -> string) returns (written: string)
    ensures written == Framed(Dumps(rows, dump))
    ensures rows == [] ==> written == "[\n\n]\n"
  {
    var ds := Dumps(rows, dump);
    written := "[\n";
    var first := true;
    for k := 0 to |rows|
      invariant first <==> k == 0
      invariant written == "[\n" + Join(ds[..k], ",\n")
    {
      if !first {
        written := written + ",\n";
      }
      JoinSnoc(ds[..k], ds[k], ",\n");
      assert ds[..k + 1] == ds[..k] + [ds[k]];
      written := written + dump(rows[k]);
      first := false;
    }
    assert ds[..|rows|] == ds;
    written := written + "\n]\n";
  }

  /** Joining one more part appends the separator and that part. */
  lemma {:induction false} JoinSnoc(parts: seq<string>, last: string, sep: string)
    ensures Join(parts + [last], sep) == if parts == [] then last else Join(parts, sep) + sep + last
  {
    if |parts| > 1 {
      assert (parts + [last])[1..] == parts[1..] + [last];
      JoinSnoc(parts[1..], last, sep);
    } else if |parts| == 1 {
      assert (parts + [last])[1..] == [last];
    }
  }

  // ---------------------------------------------------------------------------
  // Reading the file back line by line

  /** The position of the first `c` in `s`. */
  function IndexOf(s: string, c: char): (k: nat)
    requires c in s
    ensures k < |s| && s[k] == c && c !in s[..k]
  {
    if s[0] == c then 0 else 1 + IndexOf(s[1..], c)
  }

  /** `s.split("\n")`: the lines of `s`, with a last, possibly empty, piece after the final newline. */
  function SplitLines(s: string): (lines: seq<string>)
    ensures |lines| >= 1
    decreases |s|
  {
    if '\n' !in s then [s]
    else
      var k := IndexOf(s, '\n');
      [s[..k]] + SplitLines(s[k + 1..])
  }

  /** A newline-free line followed by a newline splits off as one line. */
  lemma SplitAfterLine(line: string, rest: string)
    requires '\n' !in line
    ensures SplitLines(line + "\n" + rest) == [line] + SplitLines(rest)
  {
    var s := line + "\n" + rest;
    assert s[|line|] == '\n';
    var k := IndexOf(s, '\n');
    assert s[..k] == line;
    assert s[k + 1..] == rest;
  }

  /** The lines that carry the row texts: every one but the last ends in a comma. */
  function RowLines(ds: seq<string>): (lines: seq<string>)
    ensures |lines| == |ds|
  {
    seq(|ds|, i requires 0 <= i < |ds| => if i < |ds| - 1 then ds[i] + "," else ds[i])
  }

  /** Splitting newline-free lines joined by newlines gives the lines back. */
  lemma {:induction false} SplitJoin(lines: seq<string>)
    requires |lines| > 0
    requires forall i :: 0 <= i < |lines| ==> '\n' !in lines[i]
    ensures SplitLines(Join(lines, "\n")) == lines
  {
    if |lines| > 1 {
      SplitJoin(lines[1..]);
      SplitAfterLine(lines[0], Join(lines[1..], "\n"));
      assert lines == [lines[0]] + lines[1..];
    }
  }

  /** Joining two non-empty lists puts one separator between their joins. */
  lemma {:induction false} JoinAppend(a: seq<string>, b: seq<string>, sep: string)
    requires |a| > 0 && |b| > 0
    ensures Join(a + b, sep) == Join(a, sep) + sep + Join(b, sep)
  {
    if |a| > 1 {
      assert (a + b)[1..] == a[1..] + b;
      JoinAppend(a[1..], b, sep);
    } else {
      assert (a + b)[1..] == b;
    }
  }

  /** The row lines joined by newlines are the row texts joined by ",\n". */
  lemma {:induction false} JoinRowLines(ds: seq<string>)
    requires |ds| > 0
    ensures Join(RowLines(ds), "\n") == Join(ds, ",\n")
  {
    if |ds| > 1 {
      JoinRowLines(ds[1..]);
      assert RowLines(ds) == [ds[0] + ","] + RowLines(ds[1..]);
      assert RowLines(ds)[1..] == RowLines(ds[1..]);
    }
  }

  /** The lines of the array file holding the row texts `ds`. */
  function FileLines(ds: seq<string>): seq<string>
  {
    ["["] + (if ds == [] then [""] else RowLines(ds)) + ["]", ""]
  }

  /** The array file is its lines joined by newlines. */
  lemma FramedIsLines(ds: seq<string>)
    ensures Framed(ds) == Join(FileLines(ds), "\n")
  {
    var middle := if ds == [] then [""] else RowLines(ds);
    var tail := middle + ["]", ""];
    assert FileLines(ds) == ["["] + tail;
    JoinOpening(tail);
    JoinClosing(middle);
    MiddleJoin(ds);
  }

  /** The opening bracket line is followed by a newline and the remaining lines. */
  lemma JoinOpening(tail: seq<string>)
    requires |tail| > 0
    ensures Join(["["] + tail, "\n") == "[\n" + Join(tail, "\n")
  {
    JoinAppend(["["], tail, "\n");
  }

  /** The closing bracket line and the final empty piece add "\n]\n". */
  lemma JoinClosing(middle: seq<string>)
    requires |middle| > 0
    ensures Join(middle + ["]", ""], "\n") == Join(middle, "\n") + "\n]\n"
  {
    JoinAppend(middle, ["]", ""], "\n");
    ClosingJoin();
  }

  /** The last two lines of the file join to "]\n". */
  lemma ClosingJoin()
    ensures Join(["]", ""], "\n") == "]\n"
  {
    assert ["]", ""][1..] == [""];
  }

  /** The middle lines join to the row texts separated by ",\n"; with no rows, to the empty line. */
  lemma MiddleJoin(ds: seq<string>)
    ensures Join(if ds == [] then [""] else RowLines(ds), "\n") == Join(ds, ",\n")
  {
    if ds != [] {
      JoinRowLines(ds);
    }
  }

  /**
   * When no row text contains a newline (`json.dump` without indentation never
   * writes one), the array file holds the opening bracket, then each row on a
   * line of its own in row order, then the closing bracket; with no rows, an
   * empty line stands between the brackets.
   */
  lemma FramedLines(ds: seq<string>)
    requires forall i :: 0 <= i < |ds| ==> '\n' !in ds[i]
    ensures SplitLines(Framed(ds)) == FileLines(ds)
  {
    FramedIsLines(ds);
    FileLinesNewlineFree(ds);
    SplitJoin(FileLines(ds));
  }

  /** No line of the file holds a newline when no row text does. */
  lemma FileLinesNewlineFree(ds: seq<string>)
    requires forall i :: 0 <= i < |ds| ==> '\n' !in ds[i]
    ensures forall i :: 0 <= i < |FileLines(ds)| ==> '\n' !in FileLines(ds)[i]
  {
    var rows := RowLines(ds);
    forall i | 0 <= i < |rows|
      ensures '\n' !in rows[i]
    {
      if i < |ds| - 1 {
        CommaLine(ds[i]);
      }
    }
  }

  /** Appending the separator's comma adds no newline. */
  lemma CommaLine(d: string)
    requires '\n' !in d
    ensures '\n' !in d + ","
  {
    assert forall j :: 0 <= j < |d| ==> (d + ",")[j] == d[j];
  }

  /** The file's first character is the '[' by which the exporter recognises the array format. */
  lemma FramedStartsWithBracket(ds: seq<string>)
    ensures |Framed(ds)| >= 5 && Framed(ds)[0] == '['
  {
  }
}

/** An append-only file of JSON rows, one per line, as far as crashes can tell: every line is
    a readable row or not, and the last line may lack its newline. */
module JournalFile {

  datatype Line<+R> = Row(row: R) | Unreadable

  /** What follows the last newline: nothing, a broken row, or a whole row without newline. */
  datatype Tail<+R> = Clean | Fragment | Unterminated(row: R)

  datatype File<+R> = File(lines: seq<Line<R>>, tail: Tail<R>)

  /** How an append ended: all bytes written, or an error or crash after `whole` rows and `tail`. */
  datatype Write<+R> = Whole | Torn(whole: nat, tail: Tail<R>)

  function Rows<R>(lines: seq<Line<R>>): seq<R> {
    if lines == [] then []
    else
      var front, last := Rows(lines[..|lines| - 1]), lines[|lines| - 1];
      if last.Row? then front + [last.row] else front
  }

  /** `read_rows`: lines that do not parse are skipped. */
  function Read<R>(f: File<R>): seq<R> {
    Rows(f.lines) + (if f.tail.Unterminated? then [f.tail.row] else [])
  }

  function AsLines<R>(rows: seq<R>): (lines: seq<Line<R>>)
    ensures |lines| == |rows| && forall i :: 0 <= i < |rows| ==> lines[i] == Row(rows[i])
  {
    seq(|rows|, i requires 0 <= i < |rows| => Row(rows[i]))
  }

  /** Appending does not look at what the file ends with: behind a missing newline the first new
      row joins the broken line and neither can be read again. */
  function Append<R>(f: File<R>, rows: seq<R>): File<R> {
    if rows == [] then f
    else if f.tail == Clean then File(f.lines + AsLines(rows), Clean)
    else File(f.lines + [Unreadable] + AsLines(rows[1..]), Clean)
  }

  function Replace<R>(rows: seq<R>): File<R> {
    File(AsLines(rows), Clean)
  }

  /** What an append leaves behind, whole or torn. */
  function Written<R>(f: File<R>, rows: seq<R>, w: Write<R>): File<R> {
    match w
    case Whole => Append(f, rows)
    case Torn(whole, tail) =>
      if whole >= |rows| then Append(f, rows)
      else if whole == 0 && f.tail != Clean then (if tail == Clean then f else File(f.lines, Fragment))
      else Append(f, rows[..whole]).(tail := if tail.Unterminated? then Unterminated(rows[whole]) else tail)
  }

  lemma {:induction false} RowsAppend<R>(left: seq<Line<R>>, right: seq<Line<R>>)
    ensures Rows(left + right) == Rows(left) + Rows(right)
  {
    if right == [] {
      assert left + right == left;
    } else {
      var n := |right| - 1;
      RowsAppend(left, right[..n]);
      assert (left + right)[..|left| + n] == left + right[..n];
    }
  }

  lemma {:induction false} RowsOfRows<R>(rows: seq<R>)
    ensures Rows(AsLines(rows)) == rows
  {
    if rows != [] {
      var n := |rows| - 1;
      RowsOfRows(rows[..n]);
      assert AsLines(rows)[..n] == AsLines(rows[..n]);
    }
  }

  /** Appended rows are read back after the old ones, provided the file ended with a newline;
      otherwise the first of them is lost, and an unterminated old row with it. */
  lemma AppendReads<R>(f: File<R>, rows: seq<R>)
    requires rows != []
    ensures Read(Append(f, rows)) == Rows(f.lines) + (if f.tail == Clean then rows else rows[1..])
  {
    if f.tail == Clean {
      RowsAppend(f.lines, AsLines(rows));
      RowsOfRows(rows);
    } else {
      var broken: seq<Line<R>> := f.lines + [Unreadable];
      RowsAppend(broken, AsLines(rows[1..]));
      RowsOfRows(rows[1..]);
      assert broken[..|f.lines|] == f.lines;
    }
  }

  lemma ReplaceReads<R>(rows: seq<R>)
    ensures Read(Replace(rows)) == rows
  {
    RowsOfRows(rows);
  }

  // ----- appends that may fail -----

  /** The file ends with a newline and holds just these rows. */
  ghost predicate Holds<R>(f: File<R>, rows: seq<R>) {
    f.tail == Clean && Read(f) == rows
  }

  /** How many rows are written with their newline. */
  function WholeRows<R>(rows: seq<R>, w: Write<R>): (k: nat)
    ensures k <= |rows|
  {
    if w.Torn? && w.whole < |rows| then w.whole else |rows|
  }

  /** Whether the file ends with a newline afterwards: nothing is left behind a whole row, or
      nothing was written and it ended so before. */
  predicate EndsClean<R(==)>(f: File<R>, rows: seq<R>, w: Write<R>) {
    && (WholeRows(rows, w) < |rows| ==> w.tail == Clean)
    && (WholeRows(rows, w) == 0 ==> f.tail == Clean)
  }

  /** The rows that can be read if it does. */
  function Survivors<R(==)>(f: File<R>, rows: seq<R>, w: Write<R>): seq<R> {
    var k := WholeRows(rows, w);
    Rows(f.lines) + (if f.tail == Clean || k == 0 then rows[..k] else rows[1..k])
  }

  /** What a file holds after an append, whole or torn. */
  lemma WrittenHoldsExactly<R>(f: File<R>, rows: seq<R>, w: Write<R>, have: seq<R>)
    ensures Holds(Written(f, rows, w), have) <==> EndsClean(f, rows, w) && Survivors(f, rows, w) == have
  {
    var k := WholeRows(rows, w);
    if k == 0 {
      assert rows[..0] == [] && Rows(f.lines) + [] == Rows(f.lines);
    } else {
      WrittenIsAppend(f, rows, w);
      AppendReads(f, rows[..k]);
      assert rows[..k][1..] == rows[1..k];
      assert Append(f, rows[..k]).tail == Clean;
    }
  }

  lemma WrittenIsAppend<R>(f: File<R>, rows: seq<R>, w: Write<R>)
    requires WholeRows(rows, w) > 0
    ensures var k := WholeRows(rows, w);
            && Written(f, rows, w).lines == Append(f, rows[..k]).lines
            && (Written(f, rows, w).tail == Clean <==> k == |rows| || w.tail == Clean)
  {
    assert rows[..|rows|] == rows;
  }
}

/** Text made of lines: emitting rows each followed by '\n', and splitting a
    string back into lines as Rust's `str::lines` does. */
module TextLines {

  /** The rows emitted one after another, each followed by '\n'. */
  function JoinLines(rows: seq<string>): string {
    if rows == [] then []
    else JoinLines(rows[..|rows| - 1]) + rows[|rows| - 1] + "\n"
  }

  /** A row that contains no line-break character. */
  predicate LineSafe(row: string) {
    '\n' !in row && '\r' !in row
  }

  /** Index of the first '\n' of `s`, or `|s|` when there is none. */
  function LineEnd(s: string): (k: nat)
    ensures k <= |s|
    ensures forall i :: 0 <= i < k ==> s[i] != '\n'
    ensures k < |s| ==> s[k] == '\n'
  {
    if s == [] || s[0] == '\n' then 0 else 1 + LineEnd(s[1..])
  }

  /** Drops the '\r' of a "\r\n" line ending. */
  function StripCarriageReturn(line: string): string {
    if line != [] && line[|line| - 1] == '\r' then line[..|line| - 1] else line
  }

  /** `str::lines`: the pieces between '\n' characters, without a "\r\n" or
      '\n' terminator; a final terminator does not start an empty line, and
      the empty string has no lines. */
  function Lines(s: string): (lines: seq<string>)
    ensures lines == [] <==> s == []
    ensures forall r :: 0 <= r < |lines| ==> '\n' !in lines[r]
    decreases |s|
  {
    if s == [] then []
    else
      var k := LineEnd(s);
      if k == |s| then [s]
      else [StripCarriageReturn(s[..k])] + Lines(s[k + 1..])
  }

  /** Pushing the next character of `row` extends the emitted prefix of `row` by one. */
  lemma PushNext(done: string, row: string, x: nat)
    requires x < |row|
    ensures done + row[..x] + [row[x]] == done + row[..x + 1]
  {
    assert row[..x + 1] == row[..x] + [row[x]];
  }

  /** Emitting one more row appends that row and its '\n'. */
  lemma JoinLinesPrefix(rows: seq<string>, n: nat)
    requires n < |rows|
    ensures JoinLines(rows[..n + 1]) == JoinLines(rows[..n]) + rows[n] + "\n"
  {
    assert rows[..n + 1][..n] == rows[..n];
  }

  lemma {:induction false} JoinLinesCons(row: string, rows: seq<string>)
    ensures JoinLines([row] + rows) == row + "\n" + JoinLines(rows)
    decreases |rows|
  {
    if rows == [] {
      assert [row] + rows == [row];
      assert [row][..0] == [];
    } else {
      var init := rows[..|rows| - 1];
      assert ([row] + rows)[..|rows|] == [row] + init;
      JoinLinesCons(row, init);
    }
  }

  /** Splitting emitted rows into lines gives back exactly those rows, as long
      as no row holds a line break itself. */
  lemma {:induction false} LinesOfJoinLines(rows: seq<string>)
    requires forall r :: 0 <= r < |rows| ==> LineSafe(rows[r])
    ensures Lines(JoinLines(rows)) == rows
    decreases |rows|
  {
    if rows != [] {
      var row, rest := rows[0], rows[1..];
      assert rows == [row] + rest;
      JoinLinesCons(row, rest);
      var s := JoinLines(rows);
      assert s == row + "\n" + JoinLines(rest);
      assert LineEnd(s) == |row| by {
        assert s == row + ("\n" + JoinLines(rest));
        LineEndAfter(row, "\n" + JoinLines(rest));
      }
      assert s[..|row|] == row;
      assert s[|row| + 1..] == JoinLines(rest);
      LinesOfJoinLines(rest);
    }
  }

  lemma {:induction false} LineEndAfter(row: string, tail: string)
    requires '\n' !in row && tail != [] && tail[0] == '\n'
    ensures LineEnd(row + tail) == |row|
    decreases |row|
  {
    if row != [] {
      assert (row + tail)[1..] == row[1..] + tail;
      LineEndAfter(row[1..], tail);
    } else {
      assert row + tail == tail;
    }
  }
}

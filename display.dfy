/**
 * Logger: a block of `num` terminal rows reserved below the cursor, each row
 * rewritten in place by ANSI escape sequences. The terminal is modelled by the
 * text of the reserved rows and the cursor's row and column; row `num` is the
 * row just below the block, where the cursor rests between calls.
 */
module Display {

  function Max(a: int, b: int): int {
    if a < b then b else a
  }

  /** ANSI cursor movements treat a count of 0 (or less) as 1. */
  function Count(n: int): (c: nat)
    ensures c >= 1 && (n >= 1 ==> c == n)
  {
    if n < 1 then 1 else n
  }

  /**
   * The row after printing `msg` with the cursor at column `col`: the
   * characters under the message are replaced, the row is padded with spaces
   * up to the cursor if it was shorter, and the rest of the row is kept.
   */
  function Overwrite(row: string, col: nat, msg: string): (r: string)
    ensures |r| == Max(|row|, col + |msg|)
    ensures forall i :: 0 <= i < |msg| ==> r[col + i] == msg[i]
    ensures forall i :: 0 <= i < |r| && (i < col || col + |msg| <= i) ==> r[i] == (if i < |row| then row[i] else ' ')
  {
    var padded := if col <= |row| then row else row + seq(col - |row|, _ => ' ');
    var tail := if col + |msg| < |padded| then padded[col + |msg|..] else [];
    padded[..col] + msg + tail
  }

  class Logger {
    var num: int
    var rows: seq<string>
    var cursor: int
    var col: nat
    var cursorVisible: bool

    /** Between calls: one text per reserved row, cursor at the start of the row below the block. */
    ghost predicate Valid()
      reads this
    {
      num >= 0 && |rows| == num && cursor == num && col == 0
    }

    /**
     * `Logger(num)`: print `num` cleared lines, so that the block is blank
     * and the cursor sits just below it, and hide the cursor.
     */
    constructor (num: nat)
      ensures Valid() && this.num == num
      ensures rows == seq(num, _ => "") && !cursorVisible
    {
      this.num := num;
      rows := seq(num, _ => "");
      cursor := num;
      col := 0;
      cursorVisible := false;
    }

    /** CSI n F: up `n` rows, to column 0. */
    method PrecedingLine(n: int)
      requires cursor - Count(n) >= 0
      modifies this`cursor, this`col
      ensures cursor == old(cursor) - Count(n) && col == 0
    {
      cursor := cursor - Count(n);
      col := 0;
    }

    /** CSI 2 K: clear the cursor's row; the cursor does not move. */
    method EraseLine()
      requires 0 <= cursor < |rows|
      modifies this`rows
      ensures rows == old(rows)[cursor := ""]
    {
      rows := rows[cursor := ""];
    }

    /** Print `msg` at the cursor, which moves past it. */
    method Write(msg: string)
      requires 0 <= cursor < |rows|
      modifies this`rows, this`col
      ensures rows == old(rows)[cursor := Overwrite(old(rows)[cursor], old(col), msg)]
      ensures col == old(col) + |msg|
    {
      rows := rows[cursor := Overwrite(rows[cursor], col, msg)];
      col := col + |msg|;
    }

    /** CSI n E: down `n` rows, to column 0. */
    method NextLine(n: int)
      modifies this`cursor, this`col
      ensures cursor == old(cursor) + Count(n) && col == 0
    {
      cursor := cursor + Count(n);
      col := 0;
    }

    /**
     * `log(line, msg)`: go up `num - line` rows, clear that row, print the
     * message and come back down. Row `line` now reads `msg`, no other row
     * changes and the cursor is back where it was.
     */
    method Log(line: int, msg: string)
      requires Valid() && 0 <= line < num
      modifies this
      ensures Valid() && num == old(num) && cursorVisible == old(cursorVisible)
      ensures rows == old(rows)[line := msg]
      ensures cursor == old(cursor) && col == old(col)
    {
      var n := num - line;
      PrecedingLine(n);
      EraseLine();
      assert Overwrite("", 0, msg) == msg;
      Write(msg);
      NextLine(n);
    }
  }

  /**
   * The reserved rows after a series of `log(line, msg)` calls, in the order
   * they reached the terminal.
   */
  function Replay(rows: seq<string>, calls: seq<(int, string)>): (r: seq<string>)
    requires forall k :: 0 <= k < |calls| ==> 0 <= calls[k].0 < |rows|
    ensures |r| == |rows|
  {
    if calls == [] then rows
    else
      var last := calls[|calls| - 1];
      Replay(rows, calls[..|calls| - 1])[last.0 := last.1]
  }

  /** The calls addressed to row `row`, in order. */
  function CallsTo(calls: seq<(int, string)>, row: int): (r: seq<string>)
    ensures |r| <= |calls|
  {
    if calls == [] then []
    else
      var last := calls[|calls| - 1];
      CallsTo(calls[..|calls| - 1], row) + if last.0 == row then [last.1] else []
  }

  /** The last message of `msgs`, or `before` if there is none. */
  function LastOr(before: string, msgs: seq<string>): string {
    if msgs == [] then before else msgs[|msgs| - 1]
  }

  /** A row shows the last message addressed to it, or its old text if none was. */
  lemma {:induction false} ReplayRow(rows: seq<string>, calls: seq<(int, string)>, row: int)
    requires forall k :: 0 <= k < |calls| ==> 0 <= calls[k].0 < |rows|
    requires 0 <= row < |rows|
    ensures Replay(rows, calls)[row] == LastOr(rows[row], CallsTo(calls, row))
  {
    if calls != [] {
      ReplayRow(rows, calls[..|calls| - 1], row);
    }
  }

  /**
   * Workers that each write only their own row can interleave their calls in
   * any order: two call sequences that agree on the calls to each row leave
   * the same rows.
   */
  lemma InterleavingIrrelevant(rows: seq<string>, calls1: seq<(int, string)>, calls2: seq<(int, string)>)
    requires forall k :: 0 <= k < |calls1| ==> 0 <= calls1[k].0 < |rows|
    requires forall k :: 0 <= k < |calls2| ==> 0 <= calls2[k].0 < |rows|
    requires forall row :: 0 <= row < |rows| ==> CallsTo(calls1, row) == CallsTo(calls2, row)
    ensures Replay(rows, calls1) == Replay(rows, calls2)
  {
    var r1, r2 := Replay(rows, calls1), Replay(rows, calls2);
    forall row | 0 <= row < |rows|
      ensures r1[row] == r2[row]
    {
      ReplayRow(rows, calls1, row);
      ReplayRow(rows, calls2, row);
      assert CallsTo(calls1, row) == CallsTo(calls2, row);
    }
  }
}

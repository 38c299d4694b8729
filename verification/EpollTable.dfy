/** What epoll has to be told about a file descriptor: the table, and the rule behind it. */
module EpollTable {

  /** Which of reading, writing and closing is of interest. */
  datatype Interest = Interest(read: bool, write: bool, close: bool) {

    predicate IsEmpty() {
      !read && !write && !close
    }

    function Plus(i: Interest): Interest {
      Interest(read || i.read, write || i.write, close || i.close)
    }

    function Minus(i: Interest): Interest {
      Interest(read && !i.read, write && !i.write, close && !i.close)
    }
  }

  /** The operations of epoll_ctl; `Impossible` marks entries that must not be used. */
  datatype CtlOp = Nothing | Add | Mod | Del | Impossible

  datatype Operation = Operation(events: Interest, op: CtlOp)

  const ADD: nat := 1
  const DEL: nat := 2

  /** A pending change of one file descriptor. The three fields are bit sets of ADD and DEL. */
  datatype Change = Change(fd: nat, was: Interest, read: nat, write: nat, close: nat) {

    predicate InRange() {
      read < 4 && write < 4 && close < 4
    }

    /** No field says both add and delete. */
    predicate Possible() {
      read < 3 && write < 3 && close < 3
    }

    predicate IsNoop() {
      read == 0 && write == 0 && close == 0
    }

    function Added(): Interest {
      Interest(read == ADD, write == ADD, close == ADD)
    }

    function Deleted(): Interest {
      Interest(read == DEL, write == DEL, close == DEL)
    }

    /** The interest that should result. */
    function Target(): Interest {
      was.Minus(Deleted()).Plus(Added())
    }
  }

  const NONE := Interest(false, false, false)
  const R := Interest(true, false, false)
  const W := Interest(false, true, false)
  const C := Interest(false, false, true)
  const RW := Interest(true, true, false)
  const RC := Interest(true, false, true)
  const WC := Interest(false, true, true)
  const RWC := Interest(true, true, true)
  const NOP := Operation(NONE, Nothing)
  const BAD := Operation(NONE, Impossible)

  // The table, 64 entries for each set of old events. A line has the four close changes (none, add,
  // delete, both) of one read change and one write change; read changes vary faster.

  function Ops0(k: nat): Operation {
    match k
    case 0 => NOP case 1 => Operation(C, Add) case 2 => Operation(C, Del) case 3 => BAD
    case 4 => Operation(R, Add) case 5 => Operation(RC, Add) case 6 => Operation(R, Add) case 7 => BAD
    case 8 => Operation(R, Del) case 9 => Operation(C, Add) case 10 => Operation(RC, Del) case 11 => BAD
    case 12 => BAD case 13 => BAD case 14 => BAD case 15 => BAD
    case 16 => Operation(W, Add) case 17 => Operation(WC, Add) case 18 => Operation(W, Add) case 19 => BAD
    case 20 => Operation(RW, Add) case 21 => Operation(RWC, Add) case 22 => Operation(RW, Add) case 23 => BAD
    case 24 => Operation(W, Add) case 25 => Operation(WC, Add) case 26 => Operation(W, Add) case 27 => BAD
    case 28 => BAD case 29 => BAD case 30 => BAD case 31 => BAD
    case 32 => Operation(W, Del) case 33 => Operation(C, Add) case 34 => Operation(WC, Del) case 35 => BAD
    case 36 => Operation(R, Add) case 37 => Operation(RC, Add) case 38 => Operation(R, Add) case 39 => BAD
    case 40 => Operation(RW, Del) case 41 => Operation(C, Add) case 42 => Operation(RWC, Del) case 43 => BAD
    case 44 => BAD case 45 => BAD case 46 => BAD case 47 => BAD
    case 48 => BAD case 49 => BAD case 50 => BAD case 51 => BAD
    case 52 => BAD case 53 => BAD case 54 => BAD case 55 => BAD
    case 56 => BAD case 57 => BAD case 58 => BAD case 59 => BAD
    case 60 => BAD case 61 => BAD case 62 => BAD case _ => BAD
  }

  function OpsR(k: nat): Operation {
    match k
    case 0 => NOP case 1 => Operation(RC, Mod) case 2 => Operation(R, Mod) case 3 => BAD
    case 4 => Operation(R, Mod) case 5 => Operation(RC, Mod) case 6 => Operation(R, Mod) case 7 => BAD
    case 8 => Operation(R, Del) case 9 => Operation(C, Mod) case 10 => Operation(RC, Del) case 11 => BAD
    case 12 => BAD case 13 => BAD case 14 => BAD case 15 => BAD
    case 16 => Operation(RW, Mod) case 17 => Operation(RWC, Mod) case 18 => Operation(RW, Mod) case 19 => BAD
    case 20 => Operation(RW, Mod) case 21 => Operation(RWC, Mod) case 22 => Operation(RW, Mod) case 23 => BAD
    case 24 => Operation(W, Mod) case 25 => Operation(WC, Mod) case 26 => Operation(W, Mod) case 27 => BAD
    case 28 => BAD case 29 => BAD case 30 => BAD case 31 => BAD
    case 32 => Operation(R, Mod) case 33 => Operation(RC, Mod) case 34 => Operation(R, Mod) case 35 => BAD
    case 36 => Operation(R, Mod) case 37 => Operation(RC, Mod) case 38 => Operation(R, Mod) case 39 => BAD
    case 40 => Operation(RW, Del) case 41 => Operation(C, Mod) case 42 => Operation(RWC, Del) case 43 => BAD
    case 44 => BAD case 45 => BAD case 46 => BAD case 47 => BAD
    case 48 => BAD case 49 => BAD case 50 => BAD case 51 => BAD
    case 52 => BAD case 53 => BAD case 54 => BAD case 55 => BAD
    case 56 => BAD case 57 => BAD case 58 => BAD case 59 => BAD
    case 60 => BAD case 61 => BAD case 62 => BAD case _ => BAD
  }

  function OpsW(k: nat): Operation {
    match k
    case 0 => NOP case 1 => Operation(WC, Mod) case 2 => Operation(W, Mod) case 3 => BAD
    case 4 => Operation(RW, Mod) case 5 => Operation(RWC, Mod) case 6 => Operation(RW, Mod) case 7 => BAD
    case 8 => Operation(W, Mod) case 9 => Operation(WC, Mod) case 10 => Operation(W, Mod) case 11 => BAD
    case 12 => BAD case 13 => BAD case 14 => BAD case 15 => BAD
    case 16 => Operation(W, Mod) case 17 => Operation(WC, Mod) case 18 => Operation(W, Mod) case 19 => BAD
    case 20 => Operation(RW, Mod) case 21 => Operation(RWC, Mod) case 22 => Operation(RW, Mod) case 23 => BAD
    case 24 => Operation(W, Mod) case 25 => Operation(WC, Mod) case 26 => Operation(W, Mod) case 27 => BAD
    case 28 => BAD case 29 => BAD case 30 => BAD case 31 => BAD
    case 32 => Operation(W, Del) case 33 => Operation(C, Mod) case 34 => Operation(WC, Del) case 35 => BAD
    case 36 => Operation(R, Mod) case 37 => Operation(RC, Mod) case 38 => Operation(R, Mod) case 39 => BAD
    case 40 => Operation(RW, Del) case 41 => Operation(C, Mod) case 42 => Operation(RWC, Del) case 43 => BAD
    case 44 => BAD case 45 => BAD case 46 => BAD case 47 => BAD
    case 48 => BAD case 49 => BAD case 50 => BAD case 51 => BAD
    case 52 => BAD case 53 => BAD case 54 => BAD case 55 => BAD
    case 56 => BAD case 57 => BAD case 58 => BAD case 59 => BAD
    case 60 => BAD case 61 => BAD case 62 => BAD case _ => BAD
  }

  function OpsRW(k: nat): Operation {
    match k
    case 0 => NOP case 1 => Operation(RWC, Mod) case 2 => Operation(RW, Mod) case 3 => BAD
    case 4 => Operation(RW, Mod) case 5 => Operation(RWC, Mod) case 6 => Operation(RW, Mod) case 7 => BAD
    case 8 => Operation(W, Mod) case 9 => Operation(WC, Mod) case 10 => Operation(W, Mod) case 11 => BAD
    case 12 => BAD case 13 => BAD case 14 => BAD case 15 => BAD
    case 16 => Operation(RW, Mod) case 17 => Operation(RWC, Mod) case 18 => Operation(RW, Mod) case 19 => BAD
    case 20 => Operation(RW, Mod) case 21 => Operation(RWC, Mod) case 22 => Operation(RW, Mod) case 23 => BAD
    case 24 => Operation(W, Mod) case 25 => Operation(WC, Mod) case 26 => Operation(W, Mod) case 27 => BAD
    case 28 => BAD case 29 => BAD case 30 => BAD case 31 => BAD
    case 32 => Operation(R, Mod) case 33 => Operation(RC, Mod) case 34 => Operation(R, Mod) case 35 => BAD
    case 36 => Operation(R, Mod) case 37 => Operation(RC, Mod) case 38 => Operation(R, Mod) case 39 => BAD
    case 40 => Operation(RW, Del) case 41 => Operation(C, Mod) case 42 => Operation(RWC, Del) case 43 => BAD
    case 44 => BAD case 45 => BAD case 46 => BAD case 47 => BAD
    case 48 => BAD case 49 => BAD case 50 => BAD case 51 => BAD
    case 52 => BAD case 53 => BAD case 54 => BAD case 55 => BAD
    case 56 => BAD case 57 => BAD case 58 => BAD case 59 => BAD
    case 60 => BAD case 61 => BAD case 62 => BAD case _ => BAD
  }

  function OpsC(k: nat): Operation {
    match k
    case 0 => NOP case 1 => Operation(C, Mod) case 2 => Operation(C, Del) case 3 => BAD
    case 4 => Operation(RC, Mod) case 5 => Operation(RC, Mod) case 6 => Operation(R, Mod) case 7 => BAD
    case 8 => Operation(C, Mod) case 9 => Operation(C, Mod) case 10 => Operation(RC, Del) case 11 => BAD
    case 12 => BAD case 13 => BAD case 14 => BAD case 15 => BAD
    case 16 => Operation(WC, Mod) case 17 => Operation(WC, Mod) case 18 => Operation(W, Mod) case 19 => BAD
    case 20 => Operation(RWC, Mod) case 21 => Operation(RWC, Mod) case 22 => Operation(RW, Mod) case 23 => BAD
    case 24 => Operation(WC, Mod) case 25 => Operation(WC, Mod) case 26 => Operation(W, Mod) case 27 => BAD
    case 28 => BAD case 29 => BAD case 30 => BAD case 31 => BAD
    case 32 => Operation(C, Mod) case 33 => Operation(C, Mod) case 34 => Operation(WC, Del) case 35 => BAD
    case 36 => Operation(RC, Mod) case 37 => Operation(RC, Mod) case 38 => Operation(R, Mod) case 39 => BAD
    case 40 => Operation(C, Mod) case 41 => Operation(C, Mod) case 42 => Operation(RWC, Del) case 43 => BAD
    case 44 => BAD case 45 => BAD case 46 => BAD case 47 => BAD
    case 48 => BAD case 49 => BAD case 50 => BAD case 51 => BAD
    case 52 => BAD case 53 => BAD case 54 => BAD case 55 => BAD
    case 56 => BAD case 57 => BAD case 58 => BAD case 59 => BAD
    case 60 => BAD case 61 => BAD case 62 => BAD case _ => BAD
  }

  function OpsRC(k: nat): Operation {
    match k
    case 0 => NOP case 1 => Operation(RC, Mod) case 2 => Operation(R, Mod) case 3 => BAD
    case 4 => Operation(RC, Mod) case 5 => Operation(RC, Mod) case 6 => Operation(R, Mod) case 7 => BAD
    case 8 => Operation(C, Mod) case 9 => Operation(C, Mod) case 10 => Operation(RC, Del) case 11 => BAD
    case 12 => BAD case 13 => BAD case 14 => BAD case 15 => BAD
    case 16 => Operation(RWC, Mod) case 17 => Operation(RWC, Mod) case 18 => Operation(RW, Mod) case 19 => BAD
    case 20 => Operation(RWC, Mod) case 21 => Operation(RWC, Mod) case 22 => Operation(RW, Mod) case 23 => BAD
    case 24 => Operation(WC, Mod) case 25 => Operation(WC, Mod) case 26 => Operation(W, Mod) case 27 => BAD
    case 28 => BAD case 29 => BAD case 30 => BAD case 31 => BAD
    case 32 => Operation(RC, Mod) case 33 => Operation(RC, Mod) case 34 => Operation(R, Mod) case 35 => BAD
    case 36 => Operation(RC, Mod) case 37 => Operation(RC, Mod) case 38 => Operation(R, Mod) case 39 => BAD
    case 40 => Operation(C, Mod) case 41 => Operation(C, Mod) case 42 => Operation(RWC, Del) case 43 => BAD
    case 44 => BAD case 45 => BAD case 46 => BAD case 47 => BAD
    case 48 => BAD case 49 => BAD case 50 => BAD case 51 => BAD
    case 52 => BAD case 53 => BAD case 54 => BAD case 55 => BAD
    case 56 => BAD case 57 => BAD case 58 => BAD case 59 => BAD
    case 60 => BAD case 61 => BAD case 62 => BAD case _ => BAD
  }

  function OpsWC(k: nat): Operation {
    match k
    case 0 => NOP case 1 => Operation(WC, Mod) case 2 => Operation(W, Mod) case 3 => BAD
    case 4 => Operation(RWC, Mod) case 5 => Operation(RWC, Mod) case 6 => Operation(RW, Mod) case 7 => BAD
    case 8 => Operation(WC, Mod) case 9 => Operation(WC, Mod) case 10 => Operation(W, Mod) case 11 => BAD
    case 12 => BAD case 13 => BAD case 14 => BAD case 15 => BAD
    case 16 => Operation(WC, Mod) case 17 => Operation(WC, Mod) case 18 => Operation(W, Mod) case 19 => BAD
    case 20 => Operation(RWC, Mod) case 21 => Operation(RWC, Mod) case 22 => Operation(RW, Mod) case 23 => BAD
    case 24 => Operation(WC, Mod) case 25 => Operation(WC, Mod) case 26 => Operation(W, Mod) case 27 => BAD
    case 28 => BAD case 29 => BAD case 30 => BAD case 31 => BAD
    case 32 => Operation(C, Mod) case 33 => Operation(C, Mod) case 34 => Operation(WC, Del) case 35 => BAD
    case 36 => Operation(RC, Mod) case 37 => Operation(RC, Mod) case 38 => Operation(R, Mod) case 39 => BAD
    case 40 => Operation(C, Mod) case 41 => Operation(C, Mod) case 42 => Operation(RWC, Del) case 43 => BAD
    case 44 => BAD case 45 => BAD case 46 => BAD case 47 => BAD
    case 48 => BAD case 49 => BAD case 50 => BAD case 51 => BAD
    case 52 => BAD case 53 => BAD case 54 => BAD case 55 => BAD
    case 56 => BAD case 57 => BAD case 58 => BAD case 59 => BAD
    case 60 => BAD case 61 => BAD case 62 => BAD case _ => BAD
  }

  function OpsRWC(k: nat): Operation {
    match k
    case 0 => NOP case 1 => Operation(RWC, Mod) case 2 => Operation(RW, Mod) case 3 => BAD
    case 4 => Operation(RWC, Mod) case 5 => Operation(RWC, Mod) case 6 => Operation(RW, Mod) case 7 => BAD
    case 8 => Operation(WC, Mod) case 9 => Operation(WC, Mod) case 10 => Operation(W, Mod) case 11 => BAD
    case 12 => BAD case 13 => BAD case 14 => BAD case 15 => BAD
    case 16 => Operation(RWC, Mod) case 17 => Operation(RWC, Mod) case 18 => Operation(RW, Mod) case 19 => BAD
    case 20 => Operation(RWC, Mod) case 21 => Operation(RWC, Mod) case 22 => Operation(RW, Mod) case 23 => BAD
    case 24 => Operation(WC, Mod) case 25 => Operation(WC, Mod) case 26 => Operation(W, Mod) case 27 => BAD
    case 28 => BAD case 29 => BAD case 30 => BAD case 31 => BAD
    case 32 => Operation(RC, Mod) case 33 => Operation(RC, Mod) case 34 => Operation(R, Mod) case 35 => BAD
    case 36 => Operation(RC, Mod) case 37 => Operation(RC, Mod) case 38 => Operation(R, Mod) case 39 => BAD
    case 40 => Operation(C, Mod) case 41 => Operation(C, Mod) case 42 => Operation(RWC, Del) case 43 => BAD
    case 44 => BAD case 45 => BAD case 46 => BAD case 47 => BAD
    case 48 => BAD case 49 => BAD case 50 => BAD case 51 => BAD
    case 52 => BAD case 53 => BAD case 54 => BAD case 55 => BAD
    case 56 => BAD case 57 => BAD case 58 => BAD case 59 => BAD
    case 60 => BAD case 61 => BAD case 62 => BAD case _ => BAD
  }

  function Bit(b: bool, value: nat): nat {
    if b then value else 0
  }

  /** Where the table has the entry for a change. */
  function TableIndex(c: Change): (i: nat)
    requires c.InRange()
    ensures i < 512
  {
    c.close + 4 * c.read + 16 * c.write + Bit(c.was.read, 64) + Bit(c.was.write, 128) + Bit(c.was.close, 256)
  }

  function OpTable(i: nat): Operation
    requires i < 512
  {
    if i < 64 then Ops0(i)
    else if i < 128 then OpsR(i - 64)
    else if i < 192 then OpsW(i - 128)
    else if i < 256 then OpsRW(i - 192)
    else if i < 320 then OpsC(i - 256)
    else if i < 384 then OpsRC(i - 320)
    else if i < 448 then OpsWC(i - 384)
    else OpsRWC(i - 448)
  }

  /** The operation that takes a file descriptor registered for `c.was` to its target. */
  ghost predicate Fulfils(o: Operation, c: Change) {
    if !c.Possible() then o == BAD
    else if c.IsNoop() then o == NOP
    else if c.Target().IsEmpty() then o.op == Del && !o.events.IsEmpty()
    else o.events == c.Target() && o.op == if c.was.IsEmpty() then Add else Mod
  }

  lemma Row0(c: Change)
    requires c.InRange() && c.was == NONE
    ensures Fulfils(Ops0(c.close + 4 * c.read + 16 * c.write), c)
  {
  }

  lemma RowR(c: Change)
    requires c.InRange() && c.was == R
    ensures Fulfils(OpsR(c.close + 4 * c.read + 16 * c.write), c)
  {
  }

  lemma RowW(c: Change)
    requires c.InRange() && c.was == W
    ensures Fulfils(OpsW(c.close + 4 * c.read + 16 * c.write), c)
  {
  }

  lemma RowRW(c: Change)
    requires c.InRange() && c.was == RW
    ensures Fulfils(OpsRW(c.close + 4 * c.read + 16 * c.write), c)
  {
  }

  lemma RowC(c: Change)
    requires c.InRange() && c.was == C
    ensures Fulfils(OpsC(c.close + 4 * c.read + 16 * c.write), c)
  {
  }

  lemma RowRC(c: Change)
    requires c.InRange() && c.was == RC
    ensures Fulfils(OpsRC(c.close + 4 * c.read + 16 * c.write), c)
  {
  }

  lemma RowWC(c: Change)
    requires c.InRange() && c.was == WC
    ensures Fulfils(OpsWC(c.close + 4 * c.read + 16 * c.write), c)
  {
  }

  lemma RowRWC(c: Change)
    requires c.InRange() && c.was == RWC
    ensures Fulfils(OpsRWC(c.close + 4 * c.read + 16 * c.write), c)
  {
  }

  /** Every entry of the table does what its change asks for. */
  lemma TableIsRight(c: Change)
    requires c.InRange()
    ensures Fulfils(OpTable(TableIndex(c)), c)
  {
    hide Fulfils, Ops0, OpsR, OpsW, OpsRW, OpsC, OpsRC, OpsWC, OpsRWC;
    if
    case c.was == NONE => Row0(c);
    case c.was == R => RowR(c);
    case c.was == W => RowW(c);
    case c.was == RW => RowRW(c);
    case c.was == C => RowC(c);
    case c.was == RC => RowRC(c);
    case c.was == WC => RowWC(c);
    case c.was == RWC => RowRWC(c);
  }
}

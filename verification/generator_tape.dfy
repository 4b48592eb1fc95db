/**
 * What the loop-free generator outputs, and single passes of the loop-free loop
 * bodies (`mv`, both `cp` loops, the `ifelse` else-loop), do when run on the
 * straight-line tape machine.
 */
module GeneratorTape {
  import opened Wrappers
  import opened Code
  import opened Tape
  import opened Primitives
  import opened Generators

  /** The code points of `s`, in order. */
  function Codes(s: string): (r: seq<int>)
    ensures |r| == |s| && forall i :: 0 <= i < |s| ==> r[i] == s[i] as int
  {
    if s == [] then [] else Codes(s[..|s| - 1]) + [s[|s| - 1] as int]
  }

  lemma {:induction false} RunRepMove(c: char, k: nat, st: State)
    requires c == '>' || c == '<'
    ensures Run(Rep(c, k), st) == Some(st.(ptr := st.ptr + (if c == '>' then k as int else -(k as int))))
  {
    if k > 0 {
      assert Rep(c, k)[0] == c && Rep(c, k)[1..] == Rep(c, k - 1);
      var next := st.(ptr := st.ptr + if c == '>' then 1 else -1);
      RunRepMove(c, k - 1, next);
    }
  }

  lemma {:induction false} RunRepAdd(c: char, k: nat, st: State)
    requires c == '+' || c == '-'
    ensures Run(Rep(c, k), st) == Some(st.(cells := AddAt(st.cells, st.ptr, if c == '+' then k as int else -(k as int))))
  {
    if k > 0 {
      var one := if c == '+' then 1 else -1;
      assert Rep(c, k)[0] == c && Rep(c, k)[1..] == Rep(c, k - 1);
      var next := st.(cells := AddAt(st.cells, st.ptr, one));
      RunRepAdd(c, k - 1, next);
      var m := AddAt(AddAt(st.cells, st.ptr, one), st.ptr, (k - 1) * one);
      assert m == AddAt(st.cells, st.ptr, k * one);
    }
  }

  /** `Shft(k)` moves the pointer by k and changes nothing else. */
  lemma RunShft(k: int, st: State)
    ensures Run(Shft(k), st) == Some(st.(ptr := st.ptr + k))
  {
    if k > 0 { RunRepMove('>', k, st); } else if k < 0 { RunRepMove('<', -k, st); }
  }

  /** `Inc(k)` adds k to the current cell and changes nothing else. */
  lemma RunInc(k: int, st: State)
    ensures Run(Inc(k), st) == Some(st.(cells := AddAt(st.cells, st.ptr, k)))
  {
    if k > 0 { RunRepAdd('+', k, st); } else if k < 0 { RunRepAdd('-', -k, st); }
  }

  /** A shift and the opposite shift leave the machine exactly as it was. */
  lemma ShftPairIdentity(n: int, st: State)
    ensures Run(Shft(n) + Shft(-n), st) == Some(st)
  {
    RunAppend(Shft(n), Shft(-n), st);
    RunShft(n, st);
    RunShft(-n, st.(ptr := st.ptr + n));
  }

  /** An increment and the opposite increment leave every cell as it was. */
  lemma IncPairRestores(n: int, st: State)
    ensures Run(Inc(n) + Inc(-n), st).Some?
    ensures var m := Run(Inc(n) + Inc(-n), st).value;
      m.ptr == st.ptr && m.input == st.input && m.output == st.output && SameCells(m.cells, st.cells)
  {
    RunAppend(Inc(n), Inc(-n), st);
    RunInc(n, st);
    RunInc(-n, st.(cells := AddAt(st.cells, st.ptr, n)));
  }

  /** One character of `print_str` on a zero cell prints the code point and
      leaves the cell at zero. */
  lemma RunCharCode(c: char, st: State)
    requires Cell(st.cells, st.ptr) == 0
    ensures Run(CharCode(c), st).Some?
    ensures var m := Run(CharCode(c), st).value;
      m.ptr == st.ptr && m.input == st.input && m.output == st.output + [c as int]
      && SameCells(m.cells, st.cells)
  {
    var k := c as int;
    var st1 := st.(cells := AddAt(st.cells, st.ptr, k));
    var st2 := st1.(output := st1.output + [k]);
    RunAppend(Inc(k) + ".", Inc(-k), st);
    RunAppend(Inc(k), ".", st);
    RunInc(k, st);
    assert Run(".", st1) == Some(st2);
    RunInc(-k, st2);
  }

  /** `print_str(s)` run on a zero cell outputs exactly the code points of `s`,
      in order, and leaves the pointer and every cell as they were. */
  lemma {:induction false} PrintStrOutputs(s: string, st: State)
    requires Cell(st.cells, st.ptr) == 0
    ensures Run(PrintStrCode(s), st).Some?
    ensures var m := Run(PrintStrCode(s), st).value;
      m.ptr == st.ptr && m.input == st.input && m.output == st.output + Codes(s)
      && SameCells(m.cells, st.cells)
  {
    if s != [] {
      var init := s[..|s| - 1];
      var c := s[|s| - 1];
      PrintStrOutputs(init, st);
      var mid := Run(PrintStrCode(init), st).value;
      RunAppend(PrintStrCode(init), CharCode(c), st);
      RunCharCode(c, mid);
      assert st.output + Codes(init) + [c as int] == st.output + Codes(s);
    }
  }

  /** `read_bytes(n)` reads max(n, 0) input values into the cells from the
      pointer rightwards and leaves the pointer just past them. */
  lemma {:induction false} ReadBytesFills(n: int, st: State)
    requires |st.input| >= Max0(n)
    ensures Run(ReadBytesCode(n), st).Some?
    ensures var m := Run(ReadBytesCode(n), st).value;
      m.ptr == st.ptr + Max0(n) && m.input == st.input[Max0(n)..] && m.output == st.output
      && forall i :: Cell(m.cells, i) ==
           if st.ptr <= i < st.ptr + Max0(n) then st.input[i - st.ptr] else Cell(st.cells, i)
    decreases Max0(n)
  {
    if n > 0 {
      ReadBytesFills(n - 1, st);
      var mid := Run(ReadBytesCode(n - 1), st).value;
      assert mid.ptr == st.ptr + n - 1 && mid.input == st.input[n - 1..];
      assert mid.input[0] == st.input[n - 1] && mid.input[1..] == st.input[n..];
      var after := mid.(cells := mid.cells[mid.ptr := mid.input[0]], input := mid.input[1..]);
      RunOne(',', mid);
      RunOne('>', after);
      assert ",>" == "," + ">";
      RunAppend(",", ">", mid);
      assert Run(",>", mid) == Some(after.(ptr := after.ptr + 1));
      forall i
        ensures Cell(after.cells, i) ==
          if st.ptr <= i < st.ptr + n then st.input[i - st.ptr] else Cell(st.cells, i)
      {
        if i != mid.ptr {
          assert Cell(after.cells, i) == Cell(mid.cells, i);
        }
      }
      RunAppend(ReadBytesCode(n - 1), ",>", st);
    }
  }

  /** The cells part of `make_arr` adds the k-th value to the k-th cell from the
      pointer and leaves the pointer just past them. */
  lemma {:induction false} RunArrCells(values: seq<int>, st: State)
    ensures Run(ArrCells(values), st).Some?
    ensures var m := Run(ArrCells(values), st).value;
      m.ptr == st.ptr + |values| && m.input == st.input && m.output == st.output
      && forall i :: Cell(m.cells, i) == Cell(st.cells, i) +
           if st.ptr <= i < st.ptr + |values| then values[i - st.ptr] else 0
  {
    if values != [] {
      var init := values[..|values| - 1];
      var v := values[|values| - 1];
      RunArrCells(init, st);
      var mid := Run(ArrCells(init), st).value;
      RunAppend(ArrCells(init) + Inc(v), ">", st);
      RunAppend(ArrCells(init), Inc(v), st);
      RunInc(v, mid);
      RunOne('>', Run(ArrCells(init) + Inc(v), st).value);
    }
  }

  /** `make_arr(values)` adds the values, in order, to the cells 1..|values| to
      the right of the pointer (on a zero tape: writes them there), changes no
      other cell and returns the pointer to where it started. */
  lemma MakeArrWrites(values: seq<int>, st: State)
    ensures Run(MakeArrCode(values), st).Some?
    ensures var m := Run(MakeArrCode(values), st).value;
      m.ptr == st.ptr && m.input == st.input && m.output == st.output
      && forall i :: Cell(m.cells, i) == Cell(st.cells, i) +
           if st.ptr + 1 <= i <= st.ptr + |values| then values[i - st.ptr - 1] else 0
  {
    var st1 := st.(ptr := st.ptr + 1);
    RunAppend(">" + ArrCells(values), Shft(-|values| - 1), st);
    RunAppend(">", ArrCells(values), st);
    RunOne('>', st);
    RunArrCells(values, st1);
    RunShft(-|values| - 1, Run(ArrCells(values), st1).value);
  }

  /** Take one from the current cell, go n cells, add one there, go `back` cells. */
  lemma RunTransferStep(n: int, back: int, st: State)
    ensures Run("-" + Shft(n) + "+" + Shft(back), st).Some?
    ensures var m := Run("-" + Shft(n) + "+" + Shft(back), st).value;
      m.ptr == st.ptr + n + back && m.input == st.input && m.output == st.output
      && forall i :: Cell(m.cells, i) == Cell(st.cells, i)
           + (if i == st.ptr then -1 else 0) + (if i == st.ptr + n then 1 else 0)
  {
    var st1 := st.(cells := AddAt(st.cells, st.ptr, -1));
    var st2 := st1.(ptr := st.ptr + n);
    var st3 := st2.(cells := AddAt(st2.cells, st2.ptr, 1));
    RunAppend("-" + Shft(n) + "+", Shft(back), st);
    RunAppend("-" + Shft(n), "+", st);
    RunAppend("-", Shft(n), st);
    RunOne('-', st);
    RunShft(n, st1);
    RunOne('+', st2);
    RunShft(back, st3);
  }

  /** One pass of `move`'s loop body as written: the unit is moved to cell n, but
      the pointer ends 2n cells away, so the next guard test reads the wrong cell. */
  lemma MoveBodyDrifts(n: int, st: State)
    requires n != 0
    ensures Run(MoveBody(n), st).Some?
    ensures var m := Run(MoveBody(n), st).value;
      m.ptr == st.ptr + 2 * n && m.ptr != st.ptr
      && Cell(m.cells, st.ptr) == Cell(st.cells, st.ptr) - 1
      && Cell(m.cells, st.ptr + n) == Cell(st.cells, st.ptr + n) + 1
  {
    RunTransferStep(n, n, st);
  }

  /** One pass of the corrected `move` body moves one unit from the current cell
      to cell n, touches no other cell and returns the pointer. */
  lemma MoveFixedBodyTransfers(n: int, st: State)
    ensures Run(MoveFixedBody(n), st).Some?
    ensures var m := Run(MoveFixedBody(n), st).value;
      m.ptr == st.ptr && m.input == st.input && m.output == st.output
      && forall i :: Cell(m.cells, i) == Cell(st.cells, i)
           + (if i == st.ptr then -1 else 0) + (if i == st.ptr + n then 1 else 0)
  {
    RunTransferStep(n, -n, st);
  }

  /** Take one from the current cell, add one to cells n and n+1, go `back`. */
  lemma RunDrainStep(n: int, back: int, st: State)
    ensures Run("-" + Shft(n) + "+>+" + Shft(back), st).Some?
    ensures var m := Run("-" + Shft(n) + "+>+" + Shft(back), st).value;
      m.ptr == st.ptr + n + 1 + back && m.input == st.input && m.output == st.output
      && forall i :: Cell(m.cells, i) == Cell(st.cells, i) + (if i == st.ptr then -1 else 0)
           + (if i == st.ptr + n then 1 else 0) + (if i == st.ptr + n + 1 then 1 else 0)
  {
    var st1 := st.(cells := AddAt(st.cells, st.ptr, -1));
    var st2 := st1.(ptr := st.ptr + n);
    var st3 := st2.(cells := AddAt(st2.cells, st2.ptr, 1));
    var st4 := st3.(ptr := st.ptr + n + 1);
    var st5 := st4.(cells := AddAt(st4.cells, st4.ptr, 1));
    RunOne('-', st);
    RunShft(n, st1);
    RunAppend("-", Shft(n), st);
    assert Run("-" + Shft(n), st) == Some(st2);
    RunOne('+', st2);
    RunOne('>', st3);
    RunOne('+', st4);
    assert "+>+" == "+" + ">" + "+";
    RunAppend("+", ">", st2);
    RunAppend("+>", "+", st2);
    assert Run("+>+", st2) == Some(st5);
    RunAppend("-" + Shft(n), "+>+", st);
    RunAppend("-" + Shft(n) + "+>+", Shft(back), st);
    RunShft(back, st5);
  }

  /** One pass of `copy`'s first loop body as written: the pointer ends 2(n+1)
      cells away. */
  lemma CopyDrainDrifts(n: int, st: State)
    ensures Run(CopyDrainBody(n), st).Some?
    ensures Run(CopyDrainBody(n), st).value.ptr == st.ptr + 2 * (n + 1)
  {
    RunDrainStep(n, n + 1, st);
  }

  /** One pass of the corrected first loop body of `copy` moves one unit from the
      current cell to both cell n and cell n+1 and returns the pointer. */
  lemma CopyFixedDrainTransfers(n: int, st: State)
    ensures Run(CopyFixedDrainBody(n), st).Some?
    ensures var m := Run(CopyFixedDrainBody(n), st).value;
      m.ptr == st.ptr && m.input == st.input && m.output == st.output
      && forall i :: Cell(m.cells, i) == Cell(st.cells, i) + (if i == st.ptr then -1 else 0)
           + (if i == st.ptr + n then 1 else 0) + (if i == st.ptr + n + 1 then 1 else 0)
  {
    RunDrainStep(n, -(n + 1), st);
  }

  /** One pass of `copy`'s second loop body as written (entered at the scratch
      cell): the pointer ends 2(n+1) cells further on. */
  lemma CopyRestoreDrifts(n: int, st: State)
    ensures Run(CopyRestoreBody(n), st).Some?
    ensures Run(CopyRestoreBody(n), st).value.ptr == st.ptr + 2 * (n + 1)
  {
    RunTransferStep(n + 1, n + 1, st);
  }

  /** One pass of the corrected second loop body (entered at the scratch cell)
      moves one unit from the scratch cell back to the source, n+1 cells to the
      left, and returns to the scratch cell. */
  lemma CopyFixedRestoreTransfers(n: int, st: State)
    ensures Run(CopyFixedRestoreBody(n), st).Some?
    ensures var m := Run(CopyFixedRestoreBody(n), st).value;
      m.ptr == st.ptr && m.input == st.input && m.output == st.output
      && forall i :: Cell(m.cells, i) == Cell(st.cells, i)
           + (if i == st.ptr then -1 else 0) + (if i == st.ptr - (n + 1) then 1 else 0)
  {
    RunTransferStep(-(n + 1), n + 1, st);
  }

  /** One pass of `stateful_ifelse`'s else-loop body, entered at the flag with a
      straight-line else-branch that returns to the guard cell `tmp` to the left:
      as written it decrements the guard cell and stays there, so for tmp != 0 the
      loop tests the guard cell next and the flag is left alone; the corrected
      body decrements the flag and stays on it, for every tmp. */
  lemma ElseArmRuns(elsebody: string, tmp: int, st: State)
    requires Run(elsebody, st.(ptr := st.ptr - tmp)).Some?
    requires Run(elsebody, st.(ptr := st.ptr - tmp)).value.ptr == st.ptr - tmp
    ensures var e := Run(elsebody, st.(ptr := st.ptr - tmp)).value;
      Run(ElseArm(elsebody, tmp), st) == Some(e.(cells := AddAt(e.cells, st.ptr - tmp, -1)))
      && Run(ElseArmFixed(elsebody, tmp), st)
         == Some(e.(ptr := st.ptr, cells := AddAt(e.cells, st.ptr, -1)))
  {
    var st1 := st.(ptr := st.ptr - tmp);
    var e := Run(elsebody, st1).value;
    RunShft(-tmp, st);
    RunAppend(Shft(-tmp) + elsebody, "-", st);
    RunAppend(Shft(-tmp), elsebody, st);
    RunAppend(Shft(-tmp) + elsebody + Shft(tmp), "-", st);
    RunAppend(Shft(-tmp) + elsebody, Shft(tmp), st);
    RunShft(tmp, e);
    RunOne('-', e);
    RunOne('-', e.(ptr := st.ptr));
  }
}

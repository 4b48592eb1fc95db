/**
 * The generator set of bfpp.py: each generator is a deterministic function from
 * its (already typed) arguments to an instruction sequence. The loops that build
 * the text of `print_str`, `read_bytes` and `make_arr` are methods proved equal to
 * the functions that specify them.
 *
 * `Move`, `Copy` and `StatefulIfElse` are the code as written; `MoveFixed`,
 * `CopyFixed` and `StatefulIfElseFixed` are the evidently intended versions (see
 * GeneratorSafety for why). `Registry.Generate`, like the program's table, binds
 * the as-written versions; `Registry.GenerateFixed` binds these.
 */
module Generators {
  import opened Wrappers
  import opened Code
  import opened Strings
  import opened Primitives

  // ---------------------------------------------------------------------------
  // Conditionals

  /** `stateful_if`: run `body` while the current cell is nonzero, clearing the
      cell at the end of the body so that the loop runs at most once. */
  function StatefulIf(body: string): string {
    Loop(body + "[-]")
  }

  /** `stateful_ifelse`, step 1: set the flag `tmp` cells away to 1 and come back. */
  function SetFlag(tmp: int): string {
    Shft(tmp) + "[-]+" + Shft(-tmp)
  }

  /** `stateful_ifelse`, body of the if-loop: run the if-branch, clear the guard,
      clear the flag, come back. */
  function IfArm(ifbody: string, tmp: int): string {
    ifbody + "[-]" + Shft(tmp) + "-" + Shft(-tmp)
  }

  /** `stateful_ifelse` as written, body of the else-loop (entered at the flag):
      go back to the guard cell, run the else-branch, decrement the guard cell. */
  function ElseArm(elsebody: string, tmp: int): string {
    Shft(-tmp) + elsebody + "-"
  }

  /** `stateful_ifelse` as written. */
  function StatefulIfElse(ifbody: string, elsebody: string, tmp: int): string {
    SetFlag(tmp) + Loop(IfArm(ifbody, tmp)) + Shft(tmp) + Loop(ElseArm(elsebody, tmp)) + Shft(-tmp)
  }

  /** The intended else-loop body: go to the guard cell, run the else-branch,
      return to the flag and clear it. */
  function ElseArmFixed(elsebody: string, tmp: int): string {
    Shft(-tmp) + elsebody + Shft(tmp) + "-"
  }

  /** `stateful_ifelse` with the intended else-loop body. */
  function StatefulIfElseFixed(ifbody: string, elsebody: string, tmp: int): string {
    SetFlag(tmp) + Loop(IfArm(ifbody, tmp)) + Shft(tmp) + Loop(ElseArmFixed(elsebody, tmp)) + Shft(-tmp)
  }

  // ---------------------------------------------------------------------------
  // Printing and reading

  /** One character of `print_str`: raise the cell to the code point, print it,
      lower the cell again. */
  function CharCode(c: char): string {
    Inc(c as int) + "." + Inc(-(c as int))
  }

  /** `print_str`: the character codes of `s`, in order. */
  function PrintStrCode(s: string): string {
    if s == [] then "" else PrintStrCode(s[..|s| - 1]) + CharCode(s[|s| - 1])
  }

  /** `print_str`, building the code with `+=` in a loop over the characters. */
  method PrintStr(s: string) returns (code: string)
    ensures code == PrintStrCode(s)
  {
    code := "";
    for i := 0 to |s|
      invariant code == PrintStrCode(s[..i])
    {
      code := code + Inc(s[i] as int);
      code := code + ".";
      code := code + Inc(-(s[i] as int));
      assert s[..i + 1][..i] == s[..i];
    }
    assert s[..|s|] == s;
  }

  /** `read_bytes`: `,>` repeated n times (none for n <= 0). */
  function ReadBytesCode(n: int): string
    decreases Max0(n)
  {
    if n <= 0 then "" else ReadBytesCode(n - 1) + ",>"
  }

  /** `read_bytes`, appending `,>` to a list in a counted loop and joining it. */
  method ReadBytes(n: int) returns (code: string)
    ensures code == ReadBytesCode(n)
  {
    var parts: seq<string> := [];
    var i := 0;
    while i < n
      invariant 0 <= i <= Max0(n)
      invariant Join(parts, "") == ReadBytesCode(i)
    {
      JoinSnoc(parts, ",>", "");
      parts := parts + [",>"];
      i := i + 1;
    }
    code := Join(parts, "");
  }

  // ---------------------------------------------------------------------------
  // Transfers

  /** `move` as written, body of its loop: decrement, go n cells, increment,
      go n cells further. */
  function MoveBody(n: int): string {
    "-" + Shft(n) + "+" + Shft(n)
  }

  /** `move` as written. */
  function Move(n: int): string {
    Loop(MoveBody(n))
  }

  /** The intended loop body of `move`: the second shift goes back. */
  function MoveFixedBody(n: int): string {
    "-" + Shft(n) + "+" + Shft(-n)
  }

  function MoveFixed(n: int): string {
    Loop(MoveFixedBody(n))
  }

  /** `copy` as written, first loop: drain the source into cells n and n+1. */
  function CopyDrainBody(n: int): string {
    "-" + Shft(n) + "+>+" + Shft(n + 1)
  }

  /** `copy` as written, second loop (entered at cell n+1): move it back. */
  function CopyRestoreBody(n: int): string {
    "-" + Shft(n + 1) + "+" + Shft(n + 1)
  }

  /** `copy` as written. */
  function Copy(n: int): string {
    Loop(CopyDrainBody(n)) + Shft(n + 1) + Loop(CopyRestoreBody(n)) + Shft(n + 1)
  }

  /** The intended `copy`: every return trip shifts back by n+1. */
  function CopyFixedDrainBody(n: int): string {
    "-" + Shft(n) + "+>+" + Shft(-(n + 1))
  }

  function CopyFixedRestoreBody(n: int): string {
    "-" + Shft(-(n + 1)) + "+" + Shft(n + 1)
  }

  function CopyFixed(n: int): string {
    Loop(CopyFixedDrainBody(n)) + Shft(n + 1) + Loop(CopyFixedRestoreBody(n)) + Shft(-(n + 1))
  }

  // ---------------------------------------------------------------------------
  // Arrays

  /** The cells part of `make_arr`: for each value, set the cell and step right. */
  function ArrCells(values: seq<int>): string {
    if values == [] then ""
    else ArrCells(values[..|values| - 1]) + Inc(values[|values| - 1]) + ">"
  }

  /** `make_arr`: step right, write the values, come back. */
  function MakeArrCode(values: seq<int>): string {
    ">" + ArrCells(values) + Shft(-|values| - 1)
  }

  /** `make_arr`, building the code with `+=` in a loop over the values. */
  method MakeArr(values: seq<int>) returns (code: string)
    ensures code == MakeArrCode(values)
  {
    code := ">";
    for i := 0 to |values|
      invariant code == ">" + ArrCells(values[..i])
    {
      code := code + (Inc(values[i]) + ">");
      assert values[..i + 1][..i] == values[..i];
    }
    assert values[..|values|] == values;
    code := code + Shft(-|values| - 1);
  }

  function Sum(values: seq<int>): int {
    if values == [] then 0 else Sum(values[..|values| - 1]) + values[|values| - 1]
  }

  /** The four array-boundary idioms of the callbacks table. */
  const ArrEndBd: string := ">[>]"
  const ArrBegBd: string := "<[<]"
  const ArrEndIn: string := "[>]<"
  const ArrBegIn: string := ">[<]"

  // ---------------------------------------------------------------------------
  // What each generator emits, counted

  /** `stateful_if` moves the pointer exactly as `body` does, adds one `-`, keeps
      to the alphabet exactly when `body` does, and is balanced exactly when
      `body` is balanced once placed one bracket deep. */
  lemma IfFacts(body: string)
    ensures Disp(StatefulIf(body)) == Disp(body)
    ensures Delta(StatefulIf(body)) == Delta(body) - 1
    ensures IsCode(StatefulIf(body)) <==> IsCode(body)
    ensures Balanced(StatefulIf(body)) <==> Scan(body, 1) == Some(1)
    ensures Balanced(body) ==> Balanced(StatefulIf(body))
  {
    IfCounts(body);
    IfBalance(body);
  }

  lemma IfCounts(body: string)
    ensures Disp(StatefulIf(body)) == Disp(body)
    ensures Delta(StatefulIf(body)) == Delta(body) - 1
    ensures IsCode(StatefulIf(body)) <==> IsCode(body)
  {
    ClearFragments();
    CountsAppend(body, "[-]");
    IsCodeAppend(body, "[-]");
    LoopCounts(body + "[-]");
  }

  lemma IfBalance(body: string)
    ensures Balanced(StatefulIf(body)) <==> Scan(body, 1) == Some(1)
    ensures Balanced(body) ==> Balanced(StatefulIf(body))
  {
    assert StatefulIf(body) == "[" + (body + "[-]]");
    ScanAppend("[", body + "[-]]", 0);
    ScanAppend(body, "[-]]", 1);
    if Scan(body, 1).Some? {
      var e := Scan(body, 1).value;
      assert "[-]]"[1..] == "-]]" && "-]]"[1..] == "]]" && "]]"[1..] == "]" && "]"[1..] == "";
      assert Scan("]", e) == if e == 0 then None else Some(e - 1);
      assert Scan("]]", e + 1) == Scan("]", e);
      assert Scan("-]]", e + 1) == Scan("]]", e + 1);
      assert Scan("[-]]", e) == Scan("-]]", e + 1);
    }
    if Balanced(body) {
      ScanShift(body, 0, 1);
    }
  }

  /** The converse of "balanced body gives balanced output" fails: a body that
      closes first and opens after is not balanced, yet the wrapped text is. */
  lemma IfBalanceNotConverse()
    ensures !Balanced("][") && Balanced(StatefulIf("]["))
  {
    IfBalance("][");
  }

  /** `stateful_ifelse` as written: the shifts outside the two loops cancel, the
      if-loop body moves the pointer as the if-branch does, the else-loop body moves
      it by the else-branch's displacement minus `tmp`; the whole is off by -tmp. */
  lemma IfElseFacts(ifbody: string, elsebody: string, tmp: int)
    ensures Disp(SetFlag(tmp)) == 0 && Disp(Shft(tmp) + Shft(-tmp)) == 0
    ensures Disp(IfArm(ifbody, tmp)) == Disp(ifbody)
    ensures Disp(ElseArm(elsebody, tmp)) == Disp(elsebody) - tmp
    ensures Disp(StatefulIfElse(ifbody, elsebody, tmp)) == Disp(ifbody) + Disp(elsebody) - tmp
  {
    var ia := IfArm(ifbody, tmp);
    var ea := ElseArm(elsebody, tmp);
    SetFlagCounts(tmp);
    IfArmCounts(ifbody, tmp);
    ElseArmCounts(elsebody, tmp);
    LoopCounts(ia);
    LoopCounts(ea);
    ShftCounts(tmp);
    ShftCounts(-tmp);
    CountsAppend(Shft(tmp), Shft(-tmp));
    IfElseShape(SetFlag(tmp), Loop(ia), Loop(ea), tmp);
  }

  /** The two top-level shifts of `stateful_ifelse` cancel. */
  lemma IfElseShape(f: string, l1: string, l2: string, tmp: int)
    ensures Disp(f + l1 + Shft(tmp) + l2 + Shft(-tmp)) == Disp(f) + Disp(l1) + Disp(l2)
  {
    ShftCounts(tmp);
    ShftCounts(-tmp);
    Counts4(f, l1, Shft(tmp), l2);
    CountsAppend(f + l1 + Shft(tmp) + l2, Shft(-tmp));
  }

  /** `stateful_ifelse` keeps to the alphabet exactly when both branches do. */
  lemma IfElseIsCode(ifbody: string, elsebody: string, tmp: int)
    ensures IsCode(StatefulIfElse(ifbody, elsebody, tmp)) <==> IsCode(ifbody) && IsCode(elsebody)
    ensures IsCode(StatefulIfElseFixed(ifbody, elsebody, tmp)) <==> IsCode(ifbody) && IsCode(elsebody)
  {
    var ia := IfArm(ifbody, tmp);
    var ea := ElseArm(elsebody, tmp);
    var fa := ElseArmFixed(elsebody, tmp);
    SetFlagCounts(tmp);
    IfArmCode(ifbody, tmp);
    ElseArmCode(elsebody, tmp);
    ShftCounts(tmp);
    ShftCounts(-tmp);
    LoopCounts(ia);
    LoopCounts(ea);
    LoopCounts(fa);
    var p := SetFlag(tmp) + Loop(ia) + Shft(tmp);
    IsCodeAppend(SetFlag(tmp), Loop(ia));
    IsCodeAppend(SetFlag(tmp) + Loop(ia), Shft(tmp));
    IsCodeAppend(p, Loop(ea));
    IsCodeAppend(p + Loop(ea), Shft(-tmp));
    IsCodeAppend(p, Loop(fa));
    IsCodeAppend(p + Loop(fa), Shft(-tmp));
  }

  lemma SetFlagFacts(tmp: int)
    ensures Disp(SetFlag(tmp)) == 0 && IsCode(SetFlag(tmp)) && Balanced(SetFlag(tmp))
    ensures Matches(SetFlag(tmp), |Shft(tmp)|, |Shft(tmp)| + 2)
  {
    SetFlagCounts(tmp);
    SetFlagLoop(tmp);
  }

  lemma SetFlagCounts(tmp: int)
    ensures Disp(SetFlag(tmp)) == 0 && Delta(SetFlag(tmp)) == 0 && IsCode(SetFlag(tmp))
  {
    ShftCounts(tmp);
    ShftCounts(-tmp);
    ClearFragments();
    Append3(Shft(tmp), "[-]+", Shft(-tmp));
  }

  lemma SetFlagLoop(tmp: int)
    ensures Balanced(SetFlag(tmp))
    ensures Matches(SetFlag(tmp), |Shft(tmp)|, |Shft(tmp)| + 2)
  {
    var q := "+" + Shft(-tmp);
    assert SetFlag(tmp) == Shft(tmp) + Loop("-") + q;
    ShftCounts(tmp);
    ShftCounts(-tmp);
    StepFragments();
    IsCodeAppend("+", Shft(-tmp));
    FlatLoopBalanced(Shft(tmp), "-", q);
  }

  lemma IfArmFacts(ifbody: string, tmp: int)
    ensures Disp(IfArm(ifbody, tmp)) == Disp(ifbody)
    ensures IsCode(IfArm(ifbody, tmp)) <==> IsCode(ifbody)
  {
    IfArmCounts(ifbody, tmp);
    IfArmCode(ifbody, tmp);
  }

  lemma IfArmCounts(ifbody: string, tmp: int)
    ensures Disp(IfArm(ifbody, tmp)) == Disp(ifbody)
  {
    ShftCounts(tmp);
    ShftCounts(-tmp);
    StepFragments();
    ClearFragments();
    CountsAppend(ifbody, "[-]");
    Counts4(ifbody + "[-]", Shft(tmp), "-", Shft(-tmp));
  }

  lemma IfArmCode(ifbody: string, tmp: int)
    ensures IsCode(IfArm(ifbody, tmp)) <==> IsCode(ifbody)
  {
    ShftCounts(tmp);
    ShftCounts(-tmp);
    StepFragments();
    ClearFragments();
    IsCodeAppend(ifbody, "[-]");
    Append4(ifbody + "[-]", Shft(tmp), "-", Shft(-tmp));
  }

  lemma ElseArmFacts(elsebody: string, tmp: int)
    ensures Disp(ElseArm(elsebody, tmp)) == Disp(elsebody) - tmp
    ensures Disp(ElseArmFixed(elsebody, tmp)) == Disp(elsebody)
    ensures IsCode(ElseArm(elsebody, tmp)) <==> IsCode(elsebody)
    ensures IsCode(ElseArmFixed(elsebody, tmp)) <==> IsCode(elsebody)
  {
    ElseArmCounts(elsebody, tmp);
    ElseArmCode(elsebody, tmp);
  }

  lemma ElseArmCounts(elsebody: string, tmp: int)
    ensures Disp(ElseArm(elsebody, tmp)) == Disp(elsebody) - tmp
    ensures Disp(ElseArmFixed(elsebody, tmp)) == Disp(elsebody)
  {
    ShftCounts(tmp);
    ShftCounts(-tmp);
    StepFragments();
    Counts3(Shft(-tmp), elsebody, "-");
    Counts4(Shft(-tmp), elsebody, Shft(tmp), "-");
  }

  lemma ElseArmCode(elsebody: string, tmp: int)
    ensures IsCode(ElseArm(elsebody, tmp)) <==> IsCode(elsebody)
    ensures IsCode(ElseArmFixed(elsebody, tmp)) <==> IsCode(elsebody)
  {
    ShftCounts(tmp);
    ShftCounts(-tmp);
    StepFragments();
    Append3(Shft(-tmp), elsebody, "-");
    Append4(Shft(-tmp), elsebody, Shft(tmp), "-");
  }

  /** One character of `print_str` prints once, nets to zero and has no loop. */
  lemma CharCodeFacts(c: char)
    ensures Count(CharCode(c), '.') == 1
    ensures Delta(CharCode(c)) == 0 && Disp(CharCode(c)) == 0
    ensures Flat(CharCode(c)) && IsCode(CharCode(c))
  {
    IncCounts(c as int);
    IncCounts(-(c as int));
    StepFragments();
    Append3(Inc(c as int), ".", Inc(-(c as int)));
    CountAppend(Inc(c as int) + ".", Inc(-(c as int)), '.');
    CountAppend(Inc(c as int), ".", '.');
  }

  /** `print_str`: one `.` per character, and every raise of the cell is undone,
      so neither the cell nor the pointer changes overall; no loops. */
  lemma {:induction false} PrintStrFacts(s: string)
    ensures Count(PrintStrCode(s), '.') == |s|
    ensures Delta(PrintStrCode(s)) == 0 && Disp(PrintStrCode(s)) == 0
    ensures Flat(PrintStrCode(s)) && IsCode(PrintStrCode(s))
  {
    if s != [] {
      var c := s[|s| - 1];
      PrintStrFacts(s[..|s| - 1]);
      CharCodeFacts(c);
      CountsAppend(PrintStrCode(s[..|s| - 1]), CharCode(c));
      CountAppend(PrintStrCode(s[..|s| - 1]), CharCode(c), '.');
      IsCodeAppend(PrintStrCode(s[..|s| - 1]), CharCode(c));
    }
  }

  /** `read_bytes`: `,` and `>` alternate, n pairs of them (none for n <= 0), so
      the pointer ends n cells to the right; it is not pointer-neutral. */
  lemma ReadBytesFacts(n: int)
    ensures |ReadBytesCode(n)| == 2 * Max0(n)
    ensures forall i :: 0 <= i < |ReadBytesCode(n)| ==> ReadBytesCode(n)[i] == if i % 2 == 0 then ',' else '>'
    ensures Count(ReadBytesCode(n), ',') == Max0(n) && Disp(ReadBytesCode(n)) == Max0(n)
    ensures Delta(ReadBytesCode(n)) == 0 && Flat(ReadBytesCode(n)) && IsCode(ReadBytesCode(n))
  {
    ReadBytesShape(n);
    ReadBytesCounts(n);
  }

  lemma {:induction false} ReadBytesShape(n: int)
    ensures |ReadBytesCode(n)| == 2 * Max0(n)
    ensures forall i :: 0 <= i < |ReadBytesCode(n)| ==> ReadBytesCode(n)[i] == if i % 2 == 0 then ',' else '>'
    decreases Max0(n)
  {
    if n > 0 {
      ReadBytesShape(n - 1);
    }
  }

  lemma {:induction false} ReadBytesCounts(n: int)
    ensures Count(ReadBytesCode(n), ',') == Max0(n) && Disp(ReadBytesCode(n)) == Max0(n)
    ensures Delta(ReadBytesCode(n)) == 0 && Flat(ReadBytesCode(n)) && IsCode(ReadBytesCode(n))
    decreases Max0(n)
  {
    if n > 0 {
      ReadBytesCounts(n - 1);
      PairFragments();
      CountsAppend(ReadBytesCode(n - 1), ",>");
      CountAppend(ReadBytesCode(n - 1), ",>", ',');
      IsCodeAppend(ReadBytesCode(n - 1), ",>");
    }
  }

  /** `move` as written: one loop whose body moves the pointer 2n cells, so the
      whole moves it 2n cells; the intended body moves it not at all. */
  lemma MoveFacts(n: int)
    ensures Matches(Move(n), 0, |Move(n)| - 1) && Move(n)[1..|Move(n)| - 1] == MoveBody(n)
    ensures Disp(MoveBody(n)) == 2 * n && Delta(MoveBody(n)) == 0
    ensures Disp(Move(n)) == 2 * n && IsCode(Move(n))
  {
    MoveBodyFacts(n);
    LoopCounts(MoveBody(n));
    ScanFlat(MoveBody(n), 0);
    LoopMatches("", MoveBody(n), "");
    assert "" + Loop(MoveBody(n)) + "" == Move(n);
  }

  lemma MoveBodyFacts(n: int)
    ensures Disp(MoveBody(n)) == 2 * n && Delta(MoveBody(n)) == 0
    ensures Disp(MoveFixedBody(n)) == 0 && Delta(MoveFixedBody(n)) == 0
    ensures IsCode(MoveBody(n)) && Flat(MoveBody(n))
    ensures IsCode(MoveFixedBody(n)) && Flat(MoveFixedBody(n))
  {
    ShftCounts(n);
    ShftCounts(-n);
    StepFragments();
    Append4("-", Shft(n), "+", Shft(n));
    Append4("-", Shft(n), "+", Shft(-n));
  }

  /** `copy` as written: both loop bodies move the pointer 2(n+1) cells and the
      whole 6(n+1) cells; for n >= 0 it holds no `<` at all. */
  lemma CopyFacts(n: int)
    ensures Disp(CopyDrainBody(n)) == 2 * (n + 1) && Disp(CopyRestoreBody(n)) == 2 * (n + 1)
    ensures Disp(Copy(n)) == 6 * (n + 1)
    ensures n >= 0 ==> Count(Copy(n), '<') == 0
  {
    CopyBodyFacts(n);
    ShftCounts(n + 1);
    LoopCounts(CopyDrainBody(n));
    LoopCounts(CopyRestoreBody(n));
    Counts4(Loop(CopyDrainBody(n)), Shft(n + 1), Loop(CopyRestoreBody(n)), Shft(n + 1));
  }

  lemma CopyBodyFacts(n: int)
    ensures Disp(CopyDrainBody(n)) == 2 * (n + 1) && Disp(CopyRestoreBody(n)) == 2 * (n + 1)
    ensures Count(CopyDrainBody(n), '<') == Max0(-n) + Max0(-(n + 1))
    ensures Count(CopyRestoreBody(n), '<') == 2 * Max0(-(n + 1))
  {
    ShftCounts(n);
    ShftCounts(n + 1);
    StepFragments();
    PairFragments();
    Counts4("-", Shft(n), "+>+", Shft(n + 1));
    Counts4("-", Shft(n + 1), "+", Shft(n + 1));
  }

  /** `make_arr`: steps right once, then `Inc(v) >` per value, then back by
      |values|+1: |values|+1 moves each way, net displacement 0, net delta the sum
      of the values, no loops. */
  lemma {:induction false} MakeArrFacts(values: seq<int>)
    ensures MakeArrCode(values)[0] == '>'
    ensures Count(MakeArrCode(values), '>') == |values| + 1
    ensures Count(MakeArrCode(values), '<') == |values| + 1
    ensures Disp(MakeArrCode(values)) == 0 && Delta(MakeArrCode(values)) == Sum(values)
    ensures Flat(MakeArrCode(values)) && IsCode(MakeArrCode(values))
  {
    ArrCellsFacts(values);
    ShftCounts(-|values| - 1);
    CountsAppend(">" + ArrCells(values), Shft(-|values| - 1));
    CountsAppend(">", ArrCells(values));
    IsCodeAppend(">" + ArrCells(values), Shft(-|values| - 1));
    IsCodeAppend(">", ArrCells(values));
    assert IsCode(">") && Flat(">");
  }

  lemma {:induction false} ArrCellsFacts(values: seq<int>)
    ensures Count(ArrCells(values), '>') == |values| && Count(ArrCells(values), '<') == 0
    ensures Delta(ArrCells(values)) == Sum(values)
    ensures Flat(ArrCells(values)) && IsCode(ArrCells(values))
  {
    if values != [] {
      var init := values[..|values| - 1];
      var v := values[|values| - 1];
      ArrCellsFacts(init);
      IncCounts(v);
      CountsAppend(ArrCells(init) + Inc(v), ">");
      CountsAppend(ArrCells(init), Inc(v));
      IsCodeAppend(ArrCells(init) + Inc(v), ">");
      IsCodeAppend(ArrCells(init), Inc(v));
      assert IsCode(">") && Flat(">");
    }
  }

  /** The array-boundary idioms: each is one loop whose body is a single step,
      right for the `end` idioms and left for the `beg` idioms. */
  lemma NavFacts()
    ensures Matches(ArrEndBd, 1, 3) && ArrEndBd[2..3] == ">" && ArrEndBd[..1] == ">"
    ensures Matches(ArrBegBd, 1, 3) && ArrBegBd[2..3] == "<" && ArrBegBd[..1] == "<"
    ensures Matches(ArrEndIn, 0, 2) && ArrEndIn[1..2] == ">" && ArrEndIn[3..] == "<"
    ensures Matches(ArrBegIn, 1, 3) && ArrBegIn[2..3] == "<" && ArrBegIn[..1] == ">"
    ensures IsCode(ArrEndBd) && IsCode(ArrBegBd) && IsCode(ArrEndIn) && IsCode(ArrBegIn)
  {
  }
}

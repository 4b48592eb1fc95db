/**
 * Pointer safety of each generator: the invariant every generator's output is
 * meant to keep (brackets balanced, every loop body and the whole return the
 * pointer to where they started), except `read_bytes`, whose moving the pointer
 * is deliberate, and the four boundary idioms, which are scans.
 *
 * For `move`, `copy` and `stateful_ifelse` as written the invariant holds only at
 * one degenerate offset; the corrected versions keep it at every offset.
 */
module GeneratorSafety {
  import opened Code
  import opened Primitives
  import opened Generators

  lemma ClearSafe()
    ensures PointerSafe("[-]") && PointerSafe("-")
  {
    SafeFlat("-");
    SafeLoop("-");
  }

  /** Shift there, do something structured, shift back. */
  lemma StructuredWithin(k: int, m: string)
    requires Structured(m)
    ensures Structured(Shft(k) + m + Shft(-k))
    ensures Disp(Shft(k) + m + Shft(-k)) == Disp(m)
  {
    ShftCounts(k);
    ShftCounts(-k);
    StructuredFlat(Shft(k));
    StructuredFlat(Shft(-k));
    StructuredAppend(Shft(k), m);
    StructuredAppend(Shft(k) + m, Shft(-k));
    CountsAppend(Shft(k), m);
    CountsAppend(Shft(k) + m, Shft(-k));
  }

  /** Shift there, do something pointer-safe, shift back. */
  lemma SafeWithin(k: int, m: string)
    requires PointerSafe(m)
    ensures PointerSafe(Shft(k) + m + Shft(-k))
  {
    StructuredWithin(k, m);
  }

  /** `stateful_if` keeps the invariant when its body does. */
  lemma IfSafe(body: string)
    requires PointerSafe(body)
    ensures PointerSafe(StatefulIf(body))
  {
    ClearSafe();
    SafeAppend(body, "[-]");
    SafeLoop(body + "[-]");
  }

  /** `print_str` keeps the invariant. */
  lemma PrintStrSafe(s: string)
    ensures PointerSafe(PrintStrCode(s))
  {
    PrintStrFacts(s);
    SafeFlat(PrintStrCode(s));
  }

  /** `make_arr` keeps the invariant. */
  lemma MakeArrSafe(values: seq<int>)
    ensures PointerSafe(MakeArrCode(values))
  {
    MakeArrFacts(values);
    SafeFlat(MakeArrCode(values));
  }

  /** `read_bytes` is structured, and pointer-neutral only when it reads nothing. */
  lemma ReadBytesSafeIff(n: int)
    ensures Structured(ReadBytesCode(n))
    ensures PointerSafe(ReadBytesCode(n)) <==> n <= 0
  {
    ReadBytesFacts(n);
    StructuredFlat(ReadBytesCode(n));
  }

  /** `move` as written keeps the invariant only for the offset 0. */
  lemma MoveSafeIff(n: int)
    ensures PointerSafe(Move(n)) <==> n == 0
  {
    MoveFacts(n);
    if n == 0 {
      MoveFixedSafe(0);
      assert Move(0) == MoveFixed(0);
    }
  }

  /** The corrected `move` keeps the invariant for every offset. */
  lemma MoveFixedSafe(n: int)
    ensures PointerSafe(MoveFixed(n))
  {
    MoveBodyFacts(n);
    SafeFlat(MoveFixedBody(n));
    SafeLoop(MoveFixedBody(n));
  }

  /** `copy` as written keeps the invariant only for the offset -1, where the
      scratch cell is the source itself. */
  lemma CopySafeIff(n: int)
    ensures PointerSafe(Copy(n)) <==> n == -1
  {
    CopyFacts(n);
    if n == -1 {
      CopyFixedSafe(-1);
      assert Copy(-1) == CopyFixed(-1);
    }
  }

  /** The corrected `copy` keeps the invariant for every offset. */
  lemma CopyFixedSafe(n: int)
    ensures PointerSafe(CopyFixed(n))
  {
    var d := CopyFixedDrainBody(n);
    var r := CopyFixedRestoreBody(n);
    CopyFixedLoopsSafe(n);
    SafeWithin(n + 1, Loop(r));
    SafeAppend(Loop(d), Shft(n + 1) + Loop(r) + Shft(-(n + 1)));
    assert CopyFixed(n) == Loop(d) + (Shft(n + 1) + Loop(r) + Shft(-(n + 1)));
  }

  lemma CopyFixedLoopsSafe(n: int)
    ensures PointerSafe(Loop(CopyFixedDrainBody(n))) && PointerSafe(Loop(CopyFixedRestoreBody(n)))
  {
    CopyFixedDrainSafe(n);
    CopyFixedRestoreSafe(n);
    SafeLoop(CopyFixedDrainBody(n));
    SafeLoop(CopyFixedRestoreBody(n));
  }

  lemma CopyFixedDrainSafe(n: int)
    ensures PointerSafe(CopyFixedDrainBody(n))
  {
    ShftCounts(n);
    ShftCounts(-(n + 1));
    StepFragments();
    PairFragments();
    Append4("-", Shft(n), "+>+", Shft(-(n + 1)));
    SafeFlat(CopyFixedDrainBody(n));
  }

  lemma CopyFixedRestoreSafe(n: int)
    ensures PointerSafe(CopyFixedRestoreBody(n))
  {
    ShftCounts(-(n + 1));
    ShftCounts(n + 1);
    StepFragments();
    Append4("-", Shft(-(n + 1)), "+", Shft(n + 1));
    SafeFlat(CopyFixedRestoreBody(n));
  }

  /** `stateful_ifelse` as written, with pointer-safe branches, keeps the
      invariant only when the flag offset is 0. */
  lemma IfElseSafeIff(ifbody: string, elsebody: string, tmp: int)
    requires PointerSafe(ifbody) && PointerSafe(elsebody)
    ensures PointerSafe(StatefulIfElse(ifbody, elsebody, tmp)) <==> tmp == 0
  {
    IfElseFacts(ifbody, elsebody, tmp);
    if tmp == 0 {
      IfElseFixedSafe(ifbody, elsebody, 0);
      assert Shft(0) == "";
      assert ElseArm(elsebody, 0) == ElseArmFixed(elsebody, 0);
    }
  }

  /** The corrected `stateful_ifelse`, with pointer-safe branches, keeps the
      invariant for every flag offset. */
  lemma IfElseFixedSafe(ifbody: string, elsebody: string, tmp: int)
    requires PointerSafe(ifbody) && PointerSafe(elsebody)
    ensures PointerSafe(StatefulIfElseFixed(ifbody, elsebody, tmp))
  {
    var ia := IfArm(ifbody, tmp);
    var fa := ElseArmFixed(elsebody, tmp);
    IfElseLoopsSafe(ifbody, elsebody, tmp);
    SetFlagSafe(tmp);
    SafeWithin(tmp, Loop(fa));
    SafeAppend(SetFlag(tmp), Loop(ia));
    SafeAppend(SetFlag(tmp) + Loop(ia), Shft(tmp) + Loop(fa) + Shft(-tmp));
    assert StatefulIfElseFixed(ifbody, elsebody, tmp)
        == (SetFlag(tmp) + Loop(ia)) + (Shft(tmp) + Loop(fa) + Shft(-tmp));
  }

  lemma IfElseLoopsSafe(ifbody: string, elsebody: string, tmp: int)
    requires PointerSafe(ifbody) && PointerSafe(elsebody)
    ensures PointerSafe(Loop(IfArm(ifbody, tmp))) && PointerSafe(Loop(ElseArmFixed(elsebody, tmp)))
  {
    IfArmSafe(ifbody, tmp);
    ElseArmFixedSafe(elsebody, tmp);
    SafeLoop(IfArm(ifbody, tmp));
    SafeLoop(ElseArmFixed(elsebody, tmp));
  }

  lemma SetFlagSafe(tmp: int)
    ensures PointerSafe(SetFlag(tmp))
  {
    ClearSafe();
    SafeFlat("+");
    SafeAppend("[-]", "+");
    StructuredWithin(tmp, "[-]+");
  }

  lemma IfArmSafe(ifbody: string, tmp: int)
    requires PointerSafe(ifbody)
    ensures PointerSafe(IfArm(ifbody, tmp))
  {
    ClearSafe();
    SafeAppend(ifbody, "[-]");
    StructuredWithin(tmp, "-");
    SafeAppend(ifbody + "[-]", Shft(tmp) + "-" + Shft(-tmp));
    assert IfArm(ifbody, tmp) == (ifbody + "[-]") + (Shft(tmp) + "-" + Shft(-tmp));
  }

  lemma ElseArmFixedSafe(elsebody: string, tmp: int)
    requires PointerSafe(elsebody)
    ensures PointerSafe(ElseArmFixed(elsebody, tmp))
  {
    ClearSafe();
    StructuredWithin(-tmp, elsebody);
    assert Shft(- -tmp) == Shft(tmp);
    SafeAppend(Shft(-tmp) + elsebody + Shft(tmp), "-");
  }
}

/**
 * The directive table: fifteen names, each bound to a generator that takes the
 * evaluated argument list and returns the generated code. A call that the
 * preprocessor would abort on (a missing argument, an argument of a type the
 * generator cannot use) yields None.
 */
module Registry {
  import opened Wrappers
  import opened Strings
  import opened Code
  import opened Primitives
  import opened Literals
  import G = Generators
  import GeneratorSafety

  datatype Directive =
    | Shift(negated: bool)
    | Increment(negated: bool)
    | Print
    | ReadBytes
    | Move
    | Copy
    | If
    | IfElse
    | MakeArr
    | ArrEndBd
    | ArrBegBd
    | ArrEndIn
    | ArrBegIn

  /** The name -> generator table. */
  const Table: map<string, Directive> := map[
    "+" := Increment(false),
    "-" := Increment(true),
    ">" := Shift(false),
    "<" := Shift(true),
    "print" := Print,
    "read_bytes" := ReadBytes,
    "mv" := Move,
    "cp" := Copy,
    "if" := If,
    "ifelse" := IfElse,
    "make_arr" := MakeArr,
    "arr_end_bd" := ArrEndBd,
    "arr_beg_bd" := ArrBegBd,
    "arr_end_in" := ArrEndIn,
    "arr_beg_in" := ArrBegIn
  ]

  /** The name a directive is registered under. */
  function NameOf(d: Directive): string {
    match d
    case Increment(neg) => if neg then "-" else "+"
    case Shift(neg) => if neg then "<" else ">"
    case Print => "print"
    case ReadBytes => "read_bytes"
    case Move => "mv"
    case Copy => "cp"
    case If => "if"
    case IfElse => "ifelse"
    case MakeArr => "make_arr"
    case ArrEndBd => "arr_end_bd"
    case ArrBegBd => "arr_beg_bd"
    case ArrEndIn => "arr_end_in"
    case ArrBegIn => "arr_beg_in"
  }

  /** Dictionary lookup; a missing key is None. */
  function Lookup(name: string): (r: Option<Directive>)
    ensures r.Some? <==> name in Table
  {
    if name in Table then Some(Table[name]) else None
  }

  /** The table binds every directive under its own name and nothing else:
      lookup and `NameOf` are inverse to each other. */
  lemma LookupNameOf(d: Directive, name: string)
    ensures Lookup(NameOf(d)) == Some(d)
    ensures Lookup(name) == Some(d) ==> name == NameOf(d)
  {
    if Lookup(name) == Some(d) {
      assert name in Table;
    }
  }

  // ---------------------------------------------------------------- Python coercions

  /** `int(t)` on text: an optional sign and one or more decimal digits. */
  function IntOfText(t: string): (r: Option<int>)
    ensures r.Some? ==> |t| > 0
  {
    if |t| > 0 && (t[0] == '-' || t[0] == '+') then
      if IsDigits(t[1..]) then
        Some(if t[0] == '-' then -(DigitsValue(t[1..]) as int) else DigitsValue(t[1..]))
      else None
    else if IsDigits(t) then Some(DigitsValue(t)) else None
  }

  /** `int(a)`: an integer is itself, text is read as a number, a list is an error. */
  function ToInt(a: Arg): Option<int> {
    match a
    case IntArg(i) => Some(i)
    case TextArg(t) => IntOfText(t)
    case ListArg(_) => None
  }

  /** `str(a)`, the text an f-string inserts. */
  function StrOf(a: Arg): string {
    match a
    case IntArg(i) => ShowInt(i)
    case TextArg(t) => t
    case ListArg(l) => "[" + Join(ShowAll(l), ", ") + "]"
  }

  /** Decimal text is read back by `int()`. */
  lemma ToIntShowInt(n: int)
    ensures ToInt(TextArg(ShowInt(n))) == Some(n)
  {
    var t := ShowInt(n);
    if n < 0 {
      assert t[0] == '-' && t[1..] == ShowNat(-n);
      ShowNatValue(-n);
    } else {
      assert IsDigit(t[0]);
      ShowNatValue(n);
    }
  }

  // ---------------------------------------------------------------- dispatch

  /** How many leading arguments the generator reads. */
  function Arity(d: Directive): nat {
    match d
    case IfElse => 3
    case ArrEndBd => 0
    case ArrBegBd => 0
    case ArrEndIn => 0
    case ArrBegIn => 0
    case _ => 1
  }

  /** Run the generator bound to `d` on `args`, as the callbacks table does. */
  function Generate(d: Directive, args: seq<Arg>): (r: Option<string>)
    ensures |args| < Arity(d) ==> r.None?
  {
    if |args| < Arity(d) then None
    else
      match d
      case Increment(neg) =>
        if args[0].IntArg? then Some(Inc(if neg then -args[0].i else args[0].i)) else None
      case Shift(neg) =>
        if args[0].IntArg? then Some(Shft(if neg then -args[0].i else args[0].i)) else None
      case Print =>
        (match args[0]
         case TextArg(t) => Some(G.PrintStrCode(t))
         case ListArg(l) => if l == [] then Some("") else None
         case IntArg(_) => None)
      case ReadBytes =>
        (match ToInt(args[0])
         case None => None
         case Some(n) => Some(G.ReadBytesCode(n)))
      case Move =>
        (match ToInt(args[0])
         case None => None
         case Some(n) => Some(G.Move(n)))
      case Copy =>
        (match ToInt(args[0])
         case None => None
         case Some(n) => Some(G.Copy(n)))
      case If => Some(G.StatefulIf(StrOf(args[0])))
      case IfElse =>
        (match ToInt(args[2])
         case None => None
         case Some(tmp) => Some(G.StatefulIfElse(StrOf(args[0]), StrOf(args[1]), tmp)))
      case MakeArr =>
        (match args[0]
         case ListArg(l) => Some(G.MakeArrCode(l))
         case TextArg(t) => if t == "" then Some(G.MakeArrCode([])) else None
         case IntArg(_) => None)
      case ArrEndBd => Some(G.ArrEndBd)
      case ArrBegBd => Some(G.ArrBegBd)
      case ArrEndIn => Some(G.ArrEndIn)
      case ArrBegIn => Some(G.ArrBegIn)
  }

  /** The table with `mv`, `cp` and `ifelse` bound to the corrected generators
      instead; it accepts exactly the calls `Generate` accepts, and every other
      entry is unchanged. */
  function GenerateFixed(d: Directive, args: seq<Arg>): (r: Option<string>)
    ensures r.Some? <==> Generate(d, args).Some?
    ensures !(d.Move? || d.Copy? || d.IfElse?) ==> r == Generate(d, args)
  {
    if |args| < Arity(d) then None
    else
      match d
      case Move =>
        (match ToInt(args[0])
         case None => None
         case Some(n) => Some(G.MoveFixed(n)))
      case Copy =>
        (match ToInt(args[0])
         case None => None
         case Some(n) => Some(G.CopyFixed(n)))
      case IfElse =>
        (match ToInt(args[2])
         case None => None
         case Some(tmp) => Some(G.StatefulIfElseFixed(StrOf(args[0]), StrOf(args[1]), tmp)))
      case _ => Generate(d, args)
  }

  /** Arguments past those a generator reads make no difference. */
  lemma ExtraArgsIgnored(d: Directive, args: seq<Arg>, more: seq<Arg>)
    requires |args| >= Arity(d)
    ensures Generate(d, args + more) == Generate(d, args)
  {
    var all := args + more;
    assert forall k :: 0 <= k < |args| ==> all[k] == args[k];
  }

  /** The four array-navigation entries return their constant whatever the
      arguments, even none. */
  lemma NavIgnoresArgs(d: Directive, args: seq<Arg>)
    requires d.ArrEndBd? || d.ArrBegBd? || d.ArrEndIn? || d.ArrBegIn?
    ensures Generate(d, args) == Generate(d, [])
    ensures Generate(d, args) == Some(
      if d.ArrEndBd? then ">[>]" else if d.ArrBegBd? then "<[<]"
      else if d.ArrEndIn? then "[>]<" else ">[<]")
  {
  }

  /** Signatures, as Python type lists. */
  function Signature(d: Directive): seq<Kind> {
    match d
    case Increment(_) => [IntKind]
    case Shift(_) => [IntKind]
    case Print => [TextKind]
    case ReadBytes => [IntKind]
    case Move => [IntKind]
    case Copy => [IntKind]
    case If => [TextKind]
    case IfElse => [TextKind, TextKind, IntKind]
    case MakeArr => [ListKind]
    case _ => []
  }

  /** `argument_validator`: the list of argument types equals the expected list. */
  predicate ArgumentValidator(args: seq<Arg>, expected: seq<Kind>) {
    KindsOf(args) == expected
  }

  /** Every argument list the validator accepts for a directive's signature is
      one its generator runs on. */
  lemma ValidatedGenerates(d: Directive, args: seq<Arg>)
    requires ArgumentValidator(args, Signature(d))
    ensures Generate(d, args).Some?
  {
    assert |args| == |Signature(d)|;
    assert forall k :: 0 <= k < |args| ==> KindOf(args[k]) == Signature(d)[k];
  }

  /** The generators are more permissive than the validator: Python's coercions
      let `mv` take numeric text and `print` take an empty list. */
  lemma GeneratorsCoerce()
    ensures !ArgumentValidator([TextArg("3")], Signature(Move))
    ensures Generate(Move, [TextArg("3")]) == Some(G.Move(3))
    ensures !ArgumentValidator([ListArg([])], Signature(Print))
    ensures Generate(Print, [ListArg([])]) == Some("")
  {
    assert KindsOf([TextArg("3")]) == [TextKind];
    assert KindsOf([ListArg([])]) == [ListKind];
    assert "3"[0] == '3';
    assert DigitsValue("3") == 3 by {
      assert "3"[..0] == "";
    }
  }

  /** Shift and increment directives produce exactly their signed count of one
      symbol: the displacement, or the cell change, is the argument. */
  lemma PrimitiveDirectives(d: Directive, n: int)
    requires d.Shift? || d.Increment?
    ensures Generate(d, [IntArg(n)]).Some?
    ensures var out := Generate(d, [IntArg(n)]).value;
      var k := if d.negated then -n else n;
      IsCode(out) && Flat(out)
      && Disp(out) == (if d.Shift? then k else 0) && Delta(out) == (if d.Increment? then k else 0)
  {
    var k := if d.negated then -n else n;
    ShftCounts(k);
    IncCounts(k);
  }

  /** Every directive other than the ones meant to move the pointer (`>`, `<`,
      `read_bytes` and the array navigation) produces pointer-safe code (balanced
      brackets, every loop body displacement-neutral and no net displacement),
      given pointer-safe code bodies for `if` and `ifelse`, except that `mv`,
      `cp` and `ifelse` as bound in the table do so only at the offsets 0, -1
      and 0. */
  lemma GeneratedPointerSafe(d: Directive, args: seq<Arg>)
    requires Generate(d, args).Some?
    requires !d.Shift? && !d.ReadBytes?
    requires !(d.ArrEndBd? || d.ArrBegBd? || d.ArrEndIn? || d.ArrBegIn?)
    requires d.If? ==> PointerSafe(StrOf(args[0]))
    requires d.IfElse? ==> PointerSafe(StrOf(args[0])) && PointerSafe(StrOf(args[1]))
    ensures PointerSafe(Generate(d, args).value) <==>
      (d.Move? ==> ToInt(args[0]) == Some(0))
      && (d.Copy? ==> ToInt(args[0]) == Some(-1))
      && (d.IfElse? ==> ToInt(args[2]) == Some(0))
  {
    match d
    case Increment(neg) =>
      var k := if neg then -args[0].i else args[0].i;
      IncCounts(k);
      SafeFlat(Inc(k));
    case Print =>
      match args[0] {
        case TextArg(t) => GeneratorSafety.PrintStrSafe(t);
        case ListArg(_) => SafeFlat("");
      }
    case Move => GeneratorSafety.MoveSafeIff(ToInt(args[0]).value);
    case Copy => GeneratorSafety.CopySafeIff(ToInt(args[0]).value);
    case If => GeneratorSafety.IfSafe(StrOf(args[0]));
    case IfElse =>
      GeneratorSafety.IfElseSafeIff(StrOf(args[0]), StrOf(args[1]), ToInt(args[2]).value);
    case MakeArr =>
      match args[0] {
        case ListArg(l) => GeneratorSafety.MakeArrSafe(l);
        case TextArg(_) => GeneratorSafety.MakeArrSafe([]);
      }
  }

  /** With the corrected `mv`, `cp` and `ifelse`, every such directive produces
      pointer-safe code at every offset. */
  lemma GeneratedFixedPointerSafe(d: Directive, args: seq<Arg>)
    requires GenerateFixed(d, args).Some?
    requires !d.Shift? && !d.ReadBytes?
    requires !(d.ArrEndBd? || d.ArrBegBd? || d.ArrEndIn? || d.ArrBegIn?)
    requires d.If? ==> PointerSafe(StrOf(args[0]))
    requires d.IfElse? ==> PointerSafe(StrOf(args[0])) && PointerSafe(StrOf(args[1]))
    ensures PointerSafe(GenerateFixed(d, args).value)
  {
    match d
    case Move => GeneratorSafety.MoveFixedSafe(ToInt(args[0]).value);
    case Copy => GeneratorSafety.CopyFixedSafe(ToInt(args[0]).value);
    case IfElse =>
      GeneratorSafety.IfElseFixedSafe(StrOf(args[0]), StrOf(args[1]), ToInt(args[2]).value);
    case _ => GeneratedPointerSafe(d, args);
  }
}

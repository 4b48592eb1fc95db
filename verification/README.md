# bfpp in Dafny

bfpp is a brainfuck macro preprocessor. It reads a source file line by line.
On each line it looks for one directive written in parentheses, such as
`(+ 5)`, `(mv 3)` or `(print 'hi')`, and replaces it with brainfuck code. That
code uses the eight symbols `> < + - . , [ ]`. The directive's name picks a
generator from a fixed table of fifteen entries:

- shift and increment primitives;
- a conditional (`if`) and an if/else (`ifelse`);
- string printing (`print`) and byte reading (`read_bytes`);
- cell move (`mv`) and copy (`cp`);
- array creation (`make_arr`) and four array-navigation constants.

The generator turns the evaluated arguments into code.

This project models that core:

- the two primitives `shft` and `inc`;
- the seven generators and the four constant generators;
- the name→generator table;
- the directive parser, which splits the span on spaces and reads each token
  as a literal;
- the line rewrite, which finds the span the pattern `\(.*\)` matches and
  substitutes the generated text;
- the per-line driver loop.

The generators that build their code in loops (`print_str`, `read_bytes`,
`make_arr`) are methods with loop invariants. Each is proved equal to a
recursive specification function. The loop-free generators are functions.

Three sets of properties are proved:

- **By counting symbols.** Displacement (`Disp`) is `>` minus `<`. Net cell
  change (`Delta`) is `+` minus `-`.
- **By bracket structure.** `PointerSafe` holds when brackets are balanced,
  every loop body has zero displacement and the whole has zero displacement.
  Code with this property returns the pointer to where it started, however
  often each loop runs.
- **By running code on a tape machine.** The machine runs straight-line code
  on unbounded integer cells. It is used on the loop-free outputs and on single
  passes of the loop bodies that are themselves loop-free: the bodies of `mv`,
  of both `cp` loops and of the `ifelse` else-loop. The bodies of the `if` loop
  and of the `ifelse` if-loop contain a nested `[-]`, so they are covered only
  by displacement and structure.

Three generators do not return the pointer to where they started, which their
own comments promise (see "## Findings"):

- `mv` and `cp`, whose docstrings say "pointer stays in same position";
- the else-branch of `ifelse`, whose comments say "return to A and execute else
  block" and "return to A".

Each is modelled twice:

- as written, with a proof that it is pointer-safe only at a degenerate offset;
- corrected, with a proof that it is pointer-safe for every offset.

The directive table (`Registry.Generate`), and with it the line rewrite and the
driver loop, binds the as-written generators, as the program does.
`Registry.GenerateFixed` is the same table with the three corrected generators.

Modules:

- `Wrappers`: Option.
- `Strings`: Python `split` and `join`.
- `Code`: symbol counts, bracket scan, `PointerSafe`.
- `Tape`: the straight-line machine.
- `Primitives`: `shft`, `inc`.
- `Generators`: the generators and their exact shape.
- `GeneratorSafety`: pointer safety of each generator.
- `GeneratorTape`: tape effect of each generator.
- `Literals`: argument literals.
- `Registry`: the directive table and dispatch.
- `Rewrite`: span search, directive parsing, line rewrite, driver loop.

## Model

| member | source | states |
|---|---|---|
| Primitives.Shft | bfpp.py:14-20 | the result has \|n\| symbols, every one `>` when n > 0 and `<` otherwise, so it is empty for n = 0 |
| Primitives.Inc | bfpp.py:22-28 | the result has \|n\| symbols, every one `+` when n > 0 and `-` otherwise, so it is empty for n = 0 |
| Primitives.ShftCounts | bfpp.py:14-20 | `shft(n)` has max(n,0) `>`, max(-n,0) `<` and no `+`/`-`; its displacement is exactly n; it is bracket-free brainfuck |
| Primitives.IncCounts | bfpp.py:22-28 | `inc(n)` has max(n,0) `+`, max(-n,0) `-` and no `>`, `<` or `.`; its net cell change is exactly n and its displacement 0 |
| Primitives.ShftCancel | bfpp.py:14-20 | `shft(n) + shft(-n)` has displacement 0 and is pointer-safe |
| Primitives.IncCancel | bfpp.py:22-28 | `inc(n) + inc(-n)` has net change 0, displacement 0 and is pointer-safe |
| Generators.StatefulIf | bfpp.py:36-42 | definition, no contract: `stateful_if` is the body followed by `[-]`, inside one loop; its properties are in IfFacts and IfSafe |
| Generators.StatefulIfElse | bfpp.py:44-58 | definition, no contract: `stateful_ifelse` as written, from the flag setup, the if-loop, the shift to the flag, the else-loop and the final shift back; its properties are in IfElseFacts, IfElseSafeIff and ElseArmRuns |
| Generators.StatefulIfElseFixed | bfpp.py:44-58 | definition, no contract: the same with the else-loop body returning to the flag; its property is in IfElseFixedSafe |
| Generators.IfFacts | bfpp.py:36-42 | `stateful_if` adds no displacement beyond the body; its net change is the body's minus one; it is brainfuck iff the body is; it is balanced iff `[` + body + `]` is, that is, iff the body, scanned from depth 1, never closes a bracket at depth 0 and ends at depth 1 (it may fall to depth 0 on the way, as IfBalanceNotConverse shows); a balanced body gives balanced output |
| Generators.IfBalanceNotConverse | bfpp.py:41-42 | for the body `][` the output is balanced but the body is not, so balanced output does not imply a balanced body |
| Generators.IfElseFacts | bfpp.py:52-56 | the flag setup and the top-level `shft(tmp)`/`shft(-tmp)` pair each net to 0; the if-loop body's displacement is Disp(ifbody); the else-loop body's is Disp(elsebody) - tmp; the whole is Disp(ifbody) + Disp(elsebody) - tmp |
| Generators.IfElseIsCode | bfpp.py:52-56 | the output, as written and corrected, is brainfuck iff both bodies are |
| Generators.SetFlagFacts | bfpp.py:52 | the flag setup is balanced brainfuck with displacement 0, and its `[-]` is a matched pair |
| Generators.IfArmFacts | bfpp.py:53 | the if-loop body has the if-body's displacement and is brainfuck iff the if-body is |
| Generators.ElseArmFacts | bfpp.py:55 | the else-loop body as written has displacement Disp(elsebody) - tmp; the corrected one has Disp(elsebody) |
| Generators.PrintStrCode | bfpp.py:60-67 | definition, no contract: the per-character code of `print_str`, in order; PrintStr, PrintStrFacts and PrintStrOutputs state its properties |
| Generators.PrintStr | bfpp.py:60-67 | the accumulator loop returns, for each character in order, `inc(ord c)`, `.`, `inc(-ord c)` |
| Generators.PrintStrFacts | bfpp.py:60-67 | `print_str(s)` has exactly \|s\| `.`, net change 0 and displacement 0, and is bracket-free brainfuck |
| Generators.ReadBytesCode | bfpp.py:69-74 | definition, no contract: `,>` repeated n times, nothing for n <= 0; ReadBytes, ReadBytesFacts and ReadBytesFills state its properties |
| Generators.ReadBytes | bfpp.py:69-74 | the list-append loop, joined, returns `,>` repeated max(n,0) times |
| Generators.ReadBytesFacts | bfpp.py:69-74 | length 2·max(n,0); `,` at even and `>` at odd positions; max(n,0) reads; displacement max(n,0); net change 0 |
| Generators.Move | bfpp.py:76-83 | definition, no contract: `move` as written, the loop around `-` shft(n) `+` shft(n); MoveFacts, MoveSafeIff and MoveBodyDrifts state its properties |
| Generators.MoveFixed | bfpp.py:76-83 | definition, no contract: the loop around `-` shft(n) `+` shft(-n); MoveFixedSafe and MoveFixedBodyTransfers state its properties |
| Generators.MoveFacts | bfpp.py:76-83 | `mv` as written is one loop whose brackets match and whose body is `-` shft(n) `+` shft(n); body and whole have displacement 2n |
| Generators.MoveBodyFacts | bfpp.py:82 | the loop body as written has displacement 2n; the corrected body has 0; both have net change 0 |
| Generators.Copy | bfpp.py:85-95 | definition, no contract: `copy` as written, the two loops and two shifts by n+1; CopyFacts, CopySafeIff, CopyDrainDrifts and CopyRestoreDrifts state its properties |
| Generators.CopyFixed | bfpp.py:85-95 | definition, no contract: the same with every return trip shifting by -(n+1); CopyFixedSafe and the CopyFixed*Transfers lemmas state its properties |
| Generators.CopyFacts | bfpp.py:85-95 | both loop bodies of `cp` as written have displacement 2(n+1); the whole has 6(n+1); for n >= 0 it has no `<` |
| Generators.CopyBodyFacts | bfpp.py:92-93 | displacement 2(n+1) for both bodies, and their exact `<` counts |
| Generators.MakeArrCode | bfpp.py:97-103 | definition, no contract: `>`, then `inc(v)>` per value, then shft(-len-1); MakeArr, MakeArrFacts and MakeArrWrites state its properties |
| Generators.MakeArr | bfpp.py:97-103 | the accumulator loop returns `>`, then `inc(v)>` for each value in order, then `shft(-len-1)` |
| Generators.MakeArrFacts | bfpp.py:97-103 | `make_arr(L)` starts with `>`; has \|L\|+1 `>` and \|L\|+1 `<`; displacement 0; net change sum(L); bracket-free |
| Generators.ArrCellsFacts | bfpp.py:100-101 | the per-value part has \|L\| `>`, no `<`, net change sum(L) |
| Generators.NavFacts | bfpp.py:117-120 | each navigation constant (the constants `ArrEndBd`, `ArrBegBd`, `ArrEndIn` and `ArrBegIn`) is one search loop with a one-symbol body (`>` or `<`), in the stated position |
| GeneratorSafety.ClearSafe | bfpp.py:42 | the clear loop `[-]` is pointer-safe |
| GeneratorSafety.StructuredWithin | bfpp.py:52-56 | shifting out, running structured code and shifting back is structured, with the inner displacement |
| GeneratorSafety.IfSafe | bfpp.py:36-42 | `stateful_if` of a pointer-safe body is pointer-safe |
| GeneratorSafety.PrintStrSafe | bfpp.py:60-67 | `print_str` output is pointer-safe |
| GeneratorSafety.MakeArrSafe | bfpp.py:97-103 | `make_arr` output is pointer-safe |
| GeneratorSafety.ReadBytesSafeIff | bfpp.py:69-74 | `read_bytes` output is structured, and pointer-safe iff n <= 0 |
| GeneratorSafety.MoveSafeIff | bfpp.py:76-83 | `mv` as written is pointer-safe iff n = 0 |
| GeneratorSafety.MoveFixedSafe | bfpp.py:76-83 | corrected `mv` is pointer-safe for every n |
| GeneratorSafety.CopySafeIff | bfpp.py:85-95 | `cp` as written is pointer-safe iff n = -1 |
| GeneratorSafety.CopyFixedSafe | bfpp.py:85-95 | corrected `cp` is pointer-safe for every n |
| GeneratorSafety.CopyFixedDrainSafe | bfpp.py:92 | the corrected first loop body is pointer-safe |
| GeneratorSafety.CopyFixedRestoreSafe | bfpp.py:93 | the corrected second loop body is pointer-safe |
| GeneratorSafety.IfElseSafeIff | bfpp.py:44-58 | with pointer-safe bodies, `ifelse` as written is pointer-safe iff tmp = 0 |
| GeneratorSafety.IfElseFixedSafe | bfpp.py:44-58 | with pointer-safe bodies, corrected `ifelse` is pointer-safe for every tmp |
| GeneratorSafety.SetFlagSafe | bfpp.py:52 | the flag setup is pointer-safe |
| GeneratorSafety.IfArmSafe | bfpp.py:53 | the if-loop body of a pointer-safe if-body is pointer-safe |
| GeneratorSafety.ElseArmFixedSafe | bfpp.py:55 | the corrected else-loop body of a pointer-safe else-body is pointer-safe |
| GeneratorTape.RunShft | bfpp.py:14-20 | running `shft(k)` moves the pointer by k and changes nothing else |
| GeneratorTape.RunInc | bfpp.py:22-28 | running `inc(k)` adds k to the current cell and changes nothing else |
| GeneratorTape.ShftPairIdentity | bfpp.py:14-20 | `shft(n) + shft(-n)` leaves the machine exactly as it was |
| GeneratorTape.IncPairRestores | bfpp.py:22-28 | `inc(n) + inc(-n)` leaves the pointer, the streams and every cell as they were |
| GeneratorTape.RunCharCode | bfpp.py:64-66 | on a zero cell, one character's code outputs its code point and leaves the tape unchanged |
| GeneratorTape.PrintStrOutputs | bfpp.py:60-67 | on a zero cell, `print_str(s)` outputs exactly the code points of s in order; pointer, input and cells unchanged |
| GeneratorTape.ReadBytesFills | bfpp.py:69-74 | `read_bytes(n)` stores the next max(n,0) input values in the cells from the pointer rightwards, consumes them, and leaves the pointer max(n,0) cells right |
| GeneratorTape.RunArrCells | bfpp.py:100-101 | the per-value part adds the k-th value to the k-th cell from the pointer and ends past them |
| GeneratorTape.MakeArrWrites | bfpp.py:97-103 | `make_arr(L)` adds L's values to cells 1..\|L\| right of the pointer, changes no other cell and returns the pointer |
| GeneratorTape.RunTransferStep | bfpp.py:82 | for every n, a `-`, shift n, `+`, shift `back` pass takes one from the current cell, adds one n cells away (the two cancel when n = 0), and ends n + back cells away |
| GeneratorTape.MoveBodyDrifts | bfpp.py:82 | one pass of `mv`'s loop body as written moves the unit but leaves the pointer 2n cells away (n != 0) |
| GeneratorTape.MoveFixedBodyTransfers | bfpp.py:76-83 | one pass of the corrected body moves one unit to cell n, touches nothing else and returns the pointer |
| GeneratorTape.RunDrainStep | bfpp.py:92 | for every n, a pass of the double-move shape takes one from the current cell, adds one to cells n and n+1, and ends n + 1 + back cells away |
| GeneratorTape.CopyDrainDrifts | bfpp.py:92 | for every n, one pass of `cp`'s first body as written leaves the pointer 2(n+1) cells away |
| GeneratorTape.CopyFixedDrainTransfers | bfpp.py:92 | one pass of the corrected first body moves one unit to both cell n and cell n+1 and returns the pointer |
| GeneratorTape.CopyRestoreDrifts | bfpp.py:93 | one pass of `cp`'s second body as written leaves the pointer 2(n+1) cells further on |
| GeneratorTape.CopyFixedRestoreTransfers | bfpp.py:93 | one pass of the corrected second body moves one unit from the scratch cell back to the source and returns to the scratch cell |
| GeneratorTape.ElseArmRuns | bfpp.py:55 | with a pointer-neutral else-body, one pass of the else-loop body as written decrements the guard cell and stays there; the corrected one decrements the flag and stays on it |
| Literals.ParseInt | bfpp.py:128 | an accepted integer token starts with `-` or a digit |
| Literals.ShowInt | bfpp.py:41 | Python's decimal text of an int is nonempty and has no space, comma or backslash |
| Literals.IntRoundTrip | bfpp.py:128 | reading the decimal text of any integer gives that integer |
| Literals.ParseText | bfpp.py:128 | an accepted text literal is quoted at both ends by the same quote; its value is the inside, with no backslash, line break or that quote |
| Literals.ParseList | bfpp.py:128 | an accepted list literal is bracketed by `[` and `]` |
| Literals.ParseLiteral | bfpp.py:128 | the first character decides the form: a quote for text, `[` for a list, `-` or a digit for an integer |
| Literals.ListRoundTrip | bfpp.py:128 | reading the literal form of any integer list gives the list, and the form has no space |
| Literals.LiteralRoundTrip | bfpp.py:125-128 | every renderable argument reads back as itself from its literal form, which is one space-free token |
| Registry.Lookup | bfpp.py:105-121 | lookup in the constant `Table` (the fifteen entries of `callbacks`) succeeds exactly for the fifteen registered names |
| Registry.LookupNameOf | bfpp.py:105-121 | every directive is registered under its own name and under no other |
| Registry.IntOfText | bfpp.py:70 | `int()` of text accepts only nonempty text |
| Registry.ToIntShowInt | bfpp.py:70 | `int()` reads back the decimal text of any integer |
| Registry.ToInt | bfpp.py:50 | definition, no contract: `int()` as used at lines 50, 70, 81 and 91; an int is itself, text goes through IntOfText, a list fails |
| Registry.StrOf | bfpp.py:41 | definition, no contract: `str()` as used at line 41 and by the f-strings at lines 53 and 55; an int's decimal text, text itself, a list as `[a, b]` |
| Registry.Generate | bfpp.py:105-121 | the callbacks table, with `mv`, `cp` and `ifelse` bound to the as-written generators: a call with fewer arguments than the generator reads fails |
| Registry.GenerateFixed | bfpp.py:112-115 | the table with the corrected `mv`, `cp` and `ifelse` accepts exactly the calls the program's table accepts, and agrees with it on every other entry |
| Registry.ExtraArgsIgnored | bfpp.py:105-121 | arguments past those a generator reads do not change its result |
| Registry.NavIgnoresArgs | bfpp.py:117-120 | the four navigation entries return `>[>]`, `<[<]`, `[>]<` and `>[<]` whatever the arguments |
| Registry.ArgumentValidator | bfpp.py:31-34 | definition, no contract: the kinds of the arguments equal the expected list; the source only writes to stderr on a mismatch; ValidatedGenerates and GeneratorsCoerce state its properties |
| Registry.ValidatedGenerates | bfpp.py:31-34 | every argument list that `argument_validator` accepts for a directive's signature is one its generator runs on |
| Registry.GeneratorsCoerce | bfpp.py:31-34 | the converse fails: `mv '3'` runs, giving `move(3)`, and `print` runs on an empty list, both of which the validator rejects |
| Registry.PrimitiveDirectives | bfpp.py:106-109 | `+ - > <` produce bracket-free code whose displacement (shifts) or net change (increments) is the signed argument |
| Registry.GeneratedPointerSafe | bfpp.py:105-121 | for every directive except `>`, `<`, `read_bytes` and array navigation, and given pointer-safe `if`/`ifelse` bodies, the output is pointer-safe iff `mv`'s offset is 0, `cp`'s is -1 and `ifelse`'s is 0; every other such directive is always pointer-safe |
| Registry.GeneratedFixedPointerSafe | bfpp.py:105-121 | with the corrected `mv`, `cp` and `ifelse`, every such directive is pointer-safe at every offset |
| Strings.Split | bfpp.py:125 | `split` returns at least one piece, and no piece contains the separator |
| Strings.JoinSplit | bfpp.py:125 | joining the pieces of a split with the separator gives back the text |
| Strings.SplitJoin | bfpp.py:125 | splitting a join of separator-free pieces gives back the pieces |
| Rewrite.CloseFrom | bfpp.py:132 | a found `)` is at or after the start with no line break before it |
| Rewrite.CloseFromLast | bfpp.py:132 | the `)` found is the last one reachable without crossing a line break |
| Rewrite.FindSpan | bfpp.py:132 | a found span is a match of `\(.*\)` |
| Rewrite.SearchFromSound | bfpp.py:132 | the search from position i finds the leftmost match at or after i, longest from its start, or reports that none exists |
| Rewrite.FindSpanIsLeftmostLongest | bfpp.py:132 | the span is the pattern's leftmost and longest match; none is found iff the pattern matches nowhere |
| Rewrite.SpanFirstLast | bfpp.py:132 | on a single line there is a span iff some `(` precedes some `)`, and it runs from the first `(` to the last `)` |
| Rewrite.ParseArgsEach | bfpp.py:128 | `map(eval, …)` over the argument tokens: on success one argument per token, in order, each the token's literal; it fails iff some token does not evaluate |
| Rewrite.ParseDirective | bfpp.py:124-129 | the parsed name contains no space |
| Rewrite.DirectiveRoundTrip | bfpp.py:124-129 | writing a call out and parsing it back gives the same name and arguments |
| Rewrite.Expand | bfpp.py:135-138 | an expansion succeeds only when the span parses and its name is in the table |
| Rewrite.SubAll | bfpp.py:142 | definition, no contract: `re.sub`, every match left to right replaced by the text; its property on a single line is in SubOnce |
| Rewrite.RewriteLine | bfpp.py:132-142 | only a line with a directive span can fail; a line without one is kept (NoDirectiveUnchanged) |
| Rewrite.ExpandCall | bfpp.py:135-140 | expanding a written-out call runs the generator registered under its name on its arguments, and fails when the name is not registered |
| Rewrite.SubOnce | bfpp.py:142 | on a single line `re.sub` replaces only the one span and keeps the text around it |
| Rewrite.RewriteKeepsContext | bfpp.py:132-142 | a single line is rewritten to prefix + expansion + suffix, and fails exactly when the expansion fails |
| Rewrite.NoDirectiveUnchanged | bfpp.py:132-144 | a line the pattern does not match comes back unchanged |
| Rewrite.Preprocess | bfpp.py:131-144 | the driver loop returns, for every line in order, its rewrite or the line itself, and lists exactly the failed line indices in increasing order |
| Rewrite.SetBelowFacts | bfpp.py:131-144 | the failure list the driver keeps holds exactly the failing line indices, each below the line count, in increasing order |
| Rewrite.ExampleExpand | bfpp.py:106 | `(+ 5)` expands to `+++++` |
| Rewrite.ExampleIncrement | bfpp.py:132-144 | the line `x(+ 5)y` becomes `x+++++y` |
| Rewrite.ExampleUnknown | bfpp.py:137-140 | `(bogus 1)` fails and the driver keeps the line verbatim |

## Left out

- Command-line handling, file reading, printing and the stderr diagnostics are not modelled. The unused `--out` option is not modelled either. The driver is a method over a sequence of lines that returns the output lines and the failed line indices.
- Arguments are not evaluated by Python's `eval`. `Literals` reads a restricted grammar instead:
  - decimal integers with an optional `-`;
  - text in single or double quotes, without escapes;
  - bracketed, comma-separated integer lists.

  Any other Python expression fails the line.
- Literals.ParseInt: rejects `+5`, `--5`, `1_000`, `0x10` and other integer forms that `eval` accepts.
- Literals.ParseText: rejects escape sequences, string prefixes and triple quotes.
- Literals.ParseList: rejects a trailing comma, nested lists and lists of non-integers.
- Registry.IntOfText: Python's `int()` on text also accepts surrounding whitespace, underscores between digits and non-ASCII decimal digits (such as the fullwidth digits). The model accepts only an optional sign and decimal digits.
- Where the source stops, the model fails the line and keeps it verbatim. This covers:
  - an exception in a generator (a missing argument, or an argument of a type it cannot use);
  - an argument that does not evaluate.

  On an unknown name, the source writes a diagnostic and then substitutes a replacement text that is unset (a crash) or left over from an earlier line. That path is not reproduced. The model uses the same safe fallback instead.
- `argument_validator` is never called in the source. It appears only as a predicate relating signatures to what the generators accept.
- Cells are unbounded integers. There is no 8-bit wrap-around, and `,` at the end of input has no meaning on the tape machine.
- The tape machine does not run loops. A bracket stops the run. Loop behaviour is stated in two ways:
  - by displacement and structure (`PointerSafe`), for every loop;
  - by the effect of one pass, only for the loop-free bodies: `mv` (MoveBodyDrifts, MoveFixedBodyTransfers), both `cp` loops (CopyDrainDrifts, CopyRestoreDrifts and their Fixed forms) and the `ifelse` else-loop (ElseArmRuns).
- The single-shot mechanism of `stateful_if` and of the `ifelse` if-loop (run the body, clear the flag so the loop exits) is not run on the tape machine: both bodies contain a nested `[-]`. They are covered only by displacement and structure (IfFacts, IfSafe, IfArmFacts, IfArmSafe).
- The `re.sub` replacement is taken literally. Every accepted text argument is free of backslashes, and no other generated text contains one.
- A line with a line break inside it is handled. The pattern stops at a line break, and `re.sub` replaces every match. Rewrite.RewriteKeepsContext and Rewrite.SpanFirstLast are stated for lines whose only possible line break is the last character, which is what `readlines` yields.

## Findings

| source | as written | input that shows it | evidently intended | confidence | as-written member | corrected member |
|---|---|---|---|---|---|---|
| bfpp.py:82 | the loop body is `-` shft(n) `+` shft(n) | `(mv 1)` gives `[->+>]`; each pass leaves the pointer two cells right, so the next guard test reads the wrong cell | `-` shft(n) `+` shft(-n), returning to the source cell as the doc comment says | high, not executed | GeneratorSafety.MoveSafeIff | GeneratorSafety.MoveFixedSafe |
| bfpp.py:92-94 | both loop bodies end with shft(n+1), and the final "restore pointer" step is shft(n+1) | `(cp 1)` gives `[->+>+>>]>>[->>+>>]>>`; displacement 12, and each loop pass drifts 4 cells | return trips of shft(-(n+1)): back to the source in the first body, to the source and back in the second, and a final shft(-(n+1)) | high, not executed | GeneratorSafety.CopySafeIff | GeneratorSafety.CopyFixedSafe |
| bfpp.py:55 | the else loop is `[` shft(-tmp) elsebody `-]` | `(ifelse '' '' 1)` is `>[-]+<[[-]>-<]>[<-]<`. With a zero guard cell the else loop is entered at the flag, moves to the guard cell and decrements it to -1. It ends each pass there, so it tests the guard cell instead of the flag. On a tape of zeros each pass of `[<-]` steps one cell further left and turns a fresh zero cell into -1, so the loop test never sees 0, the loop never ends and the final `<` is never reached | `[` shft(-tmp) elsebody shft(tmp) `-]`, which clears the flag and stays on it | high, not executed | GeneratorSafety.IfElseSafeIff | GeneratorSafety.IfElseFixedSafe |

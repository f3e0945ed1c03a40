# lfjs runtime support, modelled in Dafny

lfjs compiles a small expression language to JavaScript. Every compiled
program starts with a prelude (out.js lines 1-35 repeat prelude.js). The
uncaught-error handler is the snippet js_snippets/catch.js. The compiler
code that inserts the handler is not part of prelude.js, out.js or
js_snippets/catch.js, and is not modelled. This project models that
runtime support:

- **Builtin library** (`prelude.dfy`, module `Prelude`). It covers the
  constants `_else` and `nil`, and the arity-checked variadic reductions
  `sum` and `sub`.
  - Arguments are a `seq<real>`, so literals such as `2.700` are covered.
    Arithmetic is exact: there is no rounding.
  - An arity error is `Failure(message)` and carries the exact text the
    builtin throws.
  - `AddFold` and `SubFold` keep the host loops' left-to-right order of
    operations. `Sigma` is the head-first mathematical sum they are proved
    against.
  - `EvalSum` and `EvalSub` mirror the `while` loops, with prefix-sum
    invariants.
  - `sub` with one argument negates it. The loop formula
    `(0 - a1) + a1 + a1` would give `a1` instead, so the separate
    one-argument branch matters.
- **Number rendering** (`decimal.dfy`, module `Decimal`). This is how an
  integral row or column of magnitude at most 2^53 appears inside a template
  literal: decimal digits with no leading zero, and a leading `-` when
  negative. `ParseInt` reads the
  text back.
- **Uncaught-error reporter** (`catch.dfy`, module `Catch`).
  - `Report` returns the strings the handler passes to `console.log`, one
    per call: the header `[row:col]Runtime Error: message`, then
    `Stack trace:`, then `  [row:col] > name` per frame, with the most
    recently entered frame first.
  - `ReportUncaught` mirrors the handler's loop over
    `__lfjs_stack.reverse()`. It also returns `stackAfter`, the stack's value
    after the in-place `reverse()`.
  - The injectivity lemmas show that the sequence of `console.log`
    arguments determines the error and the whole stack. This is not true of
    the printed text once it is joined by newlines. A message or frame name
    that contains a newline can imitate further lines.

The handler never clears `__lfjs_stack`. It leaves the stack reversed, and
`ReportUncaught` models exactly that.

The header has no space between `]` and `Runtime Error:`. The model follows
the code.

`sum` and `sub` are pure. Their arguments are an immutable `seq`, and
`EvalSum` and `EvalSub` have no `modifies` clause, so they cannot change them.

## Model

| member | source | states |
|---|---|---|
| Prelude.Conditional | out.js:65-73 | a compiled chain `g1 ? e1 : … : undefined` (the emitted `?:` shape; `undefined` is `nil` by prelude.js:2) falls through to `nil` (no arm selected) exactly when no guard holds; otherwise it selects the body of the first guard that holds |
| Prelude.ElseSelects | prelude.js:1 | the guard `_else` always selects its body; hence a two-way `g ? e1 : e2` (out.js line 71) behaves as the chain `g ? e1 : _else ? e2 : undefined`, selecting `e1` when `g` holds and `e2` otherwise |
| Prelude.ElseArmIsFallback | prelude.js:1-2 | appending an `_else` arm turns a fall-through to `nil` into the else body, leaves every other outcome unchanged, and the chain never falls through to `nil` |
| Prelude.Sum | prelude.js:20-31 | fails, with "builtin function 'sum' requires at least 2 arguments", exactly when given fewer than 2 arguments; otherwise returns the sum of all arguments |
| Prelude.Sub | prelude.js:4-18 | fails, with "builtin function 'sub' requires at least 1 argument", exactly when given no argument; one argument gives `-a1`; two or more give `a1 - (a2 + … + an)` |
| Prelude.AddFoldIsSigma | prelude.js:24-30 | the left fold `0 + a1 + … + an` of `sum`'s loop equals the mathematical sum |
| Prelude.SubFoldIsNegatedSum | prelude.js:11-16 | the running subtraction `0 - a1 - … - an` of `sub`'s loop equals `-(a1 + … + an)` |
| Prelude.SubCorrection | prelude.js:17 | the loop result plus `a1` twice equals `a1 - (a2 + … + an)` |
| Prelude.EvalSum | prelude.js:20-31 | the arity check then the loop, with invariant "result is the fold of the first i arguments", computes `Sum`, i.e. the sum of all arguments |
| Prelude.EvalSub | prelude.js:4-18 | the arity checks, the loop with invariant "result is `-(a1 + … + ai)`", and the final correction compute `Sub`, i.e. `a1 - (a2 + … + an)` for two or more arguments |
| Prelude.BuiltinExamples | prelude.js:4-31 | `sum()` and `sum(1)` fail, `sum(1,2)=3`, `sum(1,2,3)=6`, `sum(-1,-2)=-3`, `sum(2.5,0.25)=2.75`, `sub()` fails, `sub(5)=-5`, `sub(10,3)=7`, `sub(10,3,2)=5` |
| Decimal.NatToStringCanonical | js_snippets/catch.js:1 | a rendered natural number is non-empty, all digits, and starts with `0` only when it is zero |
| Decimal.NatToStringRoundTrip | js_snippets/catch.js:1 | reading the digits of a rendered natural number gives the number back |
| Decimal.IntToStringShape | js_snippets/catch.js:1 | a rendered integer is non-empty, starts with `-` exactly when negative, and every character after the first is a digit |
| Decimal.IntToStringRoundTrip | js_snippets/catch.js:1 | parsing a rendered integer gives it back |
| Decimal.IntToStringInjective | js_snippets/catch.js:1 | distinct integers render as distinct text |
| Catch.Reverse | js_snippets/catch.js:3 | `reverse()` keeps the length and puts element `i` at position `n-1-i` |
| Catch.ReverseInvolution | js_snippets/catch.js:3 | reversing twice restores the stack |
| Catch.ReversePermutes | js_snippets/catch.js:3 | reversal keeps exactly the same frames, each as often as before |
| Catch.ReverseOfPush | js_snippets/catch.js:3 | the most recently pushed frame comes out of `reverse()` first |
| Catch.Report | js_snippets/catch.js:1-5 | for a stack of `n` frames the report has `2 + n` lines: the header (which depends only on the error), then `Stack trace:`, then line `k` renders frame `n+1-k`, so the most recent frame comes first and an empty stack gives two lines |
| Catch.ReportUncaught | js_snippets/catch.js:1-5 | printing header and title and then looping over the reversed stack produces exactly `Report`; afterwards the stack is the reverse of its prior value, with the same frames |
| Catch.ReportFrameAt | js_snippets/catch.js:3-4 | re-indexes `Report`'s frame lines by stack position: in a stack of `n` frames, frame `j` is printed on line `n+1-j` |
| Catch.ReportAfterPush | js_snippets/catch.js:3-4 | pushing a frame inserts its line directly after `Stack trace:` and shifts the older frame lines down, unchanged |
| Catch.NestedCallTrace | js_snippets/catch.js:3-4 | for a call nested in another, the inner call's line is printed before the outer call's |
| Catch.HeaderFormat | js_snippets/catch.js:1 | the header is `"[" + row + ":" + col + "]Runtime Error: " + message`, with no space after `]` |
| Catch.FrameLineFormat | js_snippets/catch.js:4 | a frame line is `"  [" + row + ":" + col + "] > " + name`, with two leading spaces |
| Catch.PositionedLineInjective | js_snippets/catch.js:1-4 | a line of the form `prefix[row:col]…rest` determines its row, its column and its rest |
| Catch.HeaderInjective | js_snippets/catch.js:1 | two errors with the same header are the same error |
| Catch.FrameLineInjective | js_snippets/catch.js:4 | two frames with the same line are the same frame |
| Catch.ReportInjective | js_snippets/catch.js:1-5 | the report determines both the error and the whole recorded stack |
| Catch.ExampleHeader | js_snippets/catch.js:1 | an error at row 4, column 10 has the header `[4:10]Runtime Error: ` followed by its message |
| Catch.ExampleCalleeLine | js_snippets/catch.js:4 | a frame at 4:10 prints as `  [4:10] > ` followed by its name |
| Catch.ExampleCallerLine | js_snippets/catch.js:4 | a frame at 2:1 prints as `  [2:1] > ` followed by its name |
| Catch.NestedFramesExample | js_snippets/catch.js:1-5 | an error at 4:10 with frames pushed at 2:1 and then at 4:10 renders as the header, `Stack trace:`, the 4:10 frame's line, then the 2:1 frame's line |

## Left out

- `print` (prelude.js:33-35) and every `console.log` write: these are output. The reporter returns its lines instead of writing them.
- Prelude.Sum: proved over exact reals only. Under IEEE-754 doubles, rounding, signed zero, NaN and Infinity are not modelled.
- Prelude.Sub: the literal order `0 - a1 - … - an + a1 + a1` is kept in `SubFold`. Its equality with `a1 - (a2 + … + an)` is proved for exact reals only; with doubles the two can differ.
- Non-numeric arguments, the `arguments` object, and JavaScript coercions (such as `+=` concatenating strings) are not modelled. Arguments are numbers.
- Decimal.IntToString: renders integral rows and columns only, and assumes their magnitude is at most 2^53. Above 2^53 the host prints the shortest digits that round-trip, padded with zeros: 2^57 prints as `144115188075855870`. That rendering is not modelled, and neither are non-integral numbers, exponent notation or `-0`.
- Prelude.Conditional: the arm bodies are values. The host evaluates only the chosen arm, and errors raised in untaken arms do not arise in this model.
- Prelude.Conditional: `Nil` means "no arm selected". In the host `nil` is `undefined`, so an arm whose body evaluates to `undefined` (such as `print(...)` or `nil` itself) also yields `nil`. The model does not tell that case apart from a fall-through; it reports `Just` of that body.
- Catch.Report: `err` is assumed to carry integral `row` and `col`, set by compiler code that is not part of prelude.js, out.js or js_snippets/catch.js. The builtins throw a plain `Error` (prelude.js:6, prelude.js:22) and the host raises its own errors without them. For such an error the handler prints `[undefined:undefined]`, which is not modelled.
- Frame push and pop on `__lfjs_stack` happen in compiler code that is not part of prelude.js, out.js or js_snippets/catch.js. The stack is an input to the reporter, and no enter/leave discipline is claimed.
- Catch.ReportInjective: holds for the sequence of `console.log` arguments, not for the printed text. A message or frame name containing a newline can make two different reports print the same text.
- The surrounding `try`/`catch`, the propagation that binds `err`, and process termination are not modelled.
- The generated program body in out.js (lines 37-82) is per-program output. Only the shape of its emitted `?:` chains (lines 65-73) is modelled, in `Prelude.Conditional`. Chains ending in `: undefined` (lines 65, 67, 73) are modelled directly. A two-way `g ? e1 : e2` (line 71) is `Conditional([Branch(g, e1), Branch(Else, e2)])`, as `Prelude.ElseSelects` states. Its lines 1-35 repeat prelude.js, which is modelled once.

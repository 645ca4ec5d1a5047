# lamb — a Dafny model of the lambda-calculus engine

`lamb` is a Rust library and REPL for the untyped lambda calculus. This project models, in Dafny, its
rewriting engine and the parts around it that carry logic:

- **Locally-nameless terms.** `Reduce` (`src/term/reduce.rs`) covers the `Var` wrapper (`Bound(index) | Free(name)`).
  It also covers the conversions between named and locally-nameless terms, with their two errors `InvalidVarIndex`
  and `InvalidAbsParam`, the substitution primitives `open` and `shifted`, and `rebind`, which splices global
  definitions in for free names.
- **Normal order.** `Normal` (`src/term/reduce/normal.rs`) is the one-step rule `Normal::beta_reduce_step`.
  It is proved sound: every step is a chain of genuine beta-contractions, and it reports a change exactly when the
  term holds a redex.
- **The driver.** `BetaReduce` (`src/term/reduce.rs`) holds the strategy-agnostic loops: `beta_reduce`,
  `beta_reduce_while` and `beta_reduce_limit`. It also holds the entry points on named terms — `beta_reduced`,
  `beta_reduced_while` and `beta_reduced_limit` — which return a `ReducedTerm`. All six are methods proved
  against the function `Iterate` (the term after `n` steps). Two of them loop: `BetaReduceWhile` and
  `BetaReduceFull`. The other four delegate to them, as the source does: `BetaReduceLimit` calls
  `BetaReduceWhile`, and each entry point calls one driver and converts the result back.
- **Terms and identifiers.** `Terms` and `Idents` (`src/term.rs`, `src/ident.rs`) cover the term datatype over
  `Ident<T>` and its constructors. They also cover the minimal-parenthesis pretty-printer and the renaming pass
  `Term::rebind`, which numbers binders with the per-name counter of `Ident::bound`.
  - `DisplayParse` is a reference reader for the printed text. It shows that the layout can be read back
    unambiguously.
  - `Renaming` shows that the renaming pass keeps every variable bound to the same binder.
- **The REPL.** `Repl` (`src/repl.rs`) is a class whose fields are the binding table and the reduction limit.
  `Repl.Exec` updates them in place and answers each command with a list of outcomes.
- **The legacy module.** `LegacyReduce` (`src/reduce.rs`) is the older converter and substitution, which the
  crate root does not declare. It is kept separate from `Reduce` and related to it by lemmas.
- **The command-line front end.** `Cli` (`src/main.rs`) covers the UTF-8 byte-offset to char-offset conversion
  behind error labels, and the condition for the "reduction limit reached" warning.
- **Examples.** `Examples` pins concrete terms from the prelude: the displayed strings the tests fix, and the
  reductions the documentation describes.

The engine is generic over the identifier type `T`, as in the source. Exclusively owned trees that the source
rewrites in place (`&mut Term`) are modelled as functions from the old tree to the new one. No node is ever shared,
so no aliasing is lost. Loops and mutable objects stay imperative: the reduction drivers, `Repl`, and
`into_char_index`.

Where the documentation and the code disagree, the model follows the code. Each of the following is stated
as a lemma or contract:

- On a redex `(λ. body) arg`, the body is stepped once before it is opened, not reduced fully. On
  `(λx. (λa. a) ((λb. b) x)) y` one step leaves `(λb. b) y`, which still holds a redex
  (`Examples.StepOnceUnderRedex`).
- A step that reports a reduction need not change the term: `Ω` steps to itself (`Examples.OmegaIterate`).
- `Repl::exec` promises at least one outcome. An `Exec` with an empty statement list gives none
  (`Repl.OutcomesNonEmpty`). The command parser never builds such a list.

The functions that compute, and the source they model:

- `Reduce.Shifted` models `shifted` (src/term/reduce.rs:122-133), and `Reduce.Open` models `open` (src/term/reduce.rs:106-120).
- `Reduce.ToLocalNameless` models `to_local_nameless` (src/term/reduce.rs:241-255), and `Reduce.ToClassic` models `to_classic` (src/term/reduce.rs:135-153).
- `Reduce.FromClassic` and `Reduce.TryIntoClassic` are the `From`/`TryFrom` impls (src/term/reduce.rs:175-179, 258-264).
- `Reduce.Rebind` models `rebind` (src/term/reduce.rs:160-172).
- `Normal.NormalStep` models `Normal::beta_reduce_step` (src/term/reduce/normal.rs:15-34).
- `Terms.Display`, with its helpers `FuncText` and `ArgText`, models `Display for Term` (src/term.rs:61-74).
- `Terms.RebindIds` is the renaming pass `Term::rebind` (src/term.rs:35-58).
- `LegacyReduce.IntoLocalNameless` and `LegacyReduce.IntoClassic` model the legacy converters (src/reduce.rs:44-59, 63-78).
- `LegacyReduce.OpenWith` models `open_with` (src/reduce.rs:21-40), and `LegacyReduce.OpenAsWritten` models the legacy `open` (src/reduce.rs:14-19).
- `Cli.CharIndex` is the reference for `into_char_index` (src/main.rs:138-152), and `Cli.LimitReached` is the warning condition (src/main.rs:58-60).
- `Repl.BindAll` and `Repl.BindOutcomes` state what executing a statement list does to the table and what it reports (src/repl.rs:96-106).

The table below lists the members whose contracts state the properties.

## Model

| member | source | states |
|---|---|---|
| Idents.Free | src/ident.rs:11-13 | the identifier has the given name and no id |
| Idents.Rebind | src/ident.rs:23-25 | only the id is replaced; the name is kept |
| Idents.Bound | src/ident.rs:29-37 | the new id is the name's previous counter (0 when absent), it is reported alongside the identifier, and the name's counter goes up by one |
| Idents.BoundKeepsOthers | src/ident.rs:31-35 | the counters of all other names are unchanged |
| Idents.BoundIdsConsecutive | src/ident.rs:29-37 | n successive calls for one name hand out the ids c, c+1, …, c+n-1 |
| Idents.BoundIdsDistinct | src/ident.rs:29-37 | those ids are strictly increasing, hence distinct |
| Idents.Display | src/ident.rs:40-43 | an identifier displays as its name alone |
| Idents.DisplayIgnoresId | src/ident.rs:40-43 | rebinding an identifier never changes its displayed text |
| Terms.MakeVar | src/term.rs:21-23 | builds the variable node, with no id and no validation |
| Terms.MakeAbs | src/term.rs:25-27 | builds an abstraction whose parameter is the id-free name and whose body is exactly the given one |
| Terms.MakeApp | src/term.rs:29-31 | builds an application whose function and argument are exactly the given ones |
| Terms.Lift | src/term.rs:14-18 | every plain term has an id-free counterpart with the same names and shape |
| Terms.DisplayIgnoresIds | src/term.rs:61-74 | terms with the same names and shape display identically, whatever their ids |
| Terms.DisplayAppParenBoth | src/term.rs:67 | an abstraction applied to a non-variable prints both sides in parentheses |
| Terms.DisplayAppParenFunc | src/term.rs:68 | an abstraction applied to a variable prints only the function in parentheses |
| Terms.DisplayAppParenArg | src/term.rs:69 | a non-abstraction applied to a non-variable prints only the argument in parentheses |
| Terms.DisplayAppPlain | src/term.rs:70 | a non-abstraction applied to a variable prints both sides bare, separated by a space |
| Terms.RebindIdsKeepsNames | src/term.rs:35-58 | renaming changes ids only: names and shape are unchanged |
| Terms.RebindIdsCounters | src/term.rs:42-52 | each name's counter rises by exactly the number of binders of that name in the term |
| Terms.RebindIdsRestoresScopes | src/term.rs:42-52 | every scope stack is back to its state before the pass, so sibling subterms do not see each other's binders |
| Terms.RebindIdsNumbers | src/term.rs:42-52 | the binders named v, in order, carry consecutive ids starting at v's counter |
| Terms.RebindIdsFreshBinders | src/term.rs:35-58 | the binder ids of each name are exactly the range [counter, counter + number of binders) |
| Renaming.LookupAgrees | src/term.rs:37-41 | the innermost id on a name's scope stack identifies the innermost binder of that name; with no binder the stack is empty |
| Renaming.RebindIdsKeepsBinders | src/term.rs:35-58 | for matching binder stacks, resolving the renamed term by full identifiers gives what resolving the original by names gives; free variables keep no id |
| Renaming.RenamingKeepsBinders | src/term.rs:35-58 | from empty scopes, renaming is binder-preserving and leaves free variables without an id |
| DisplayParse.DisplayRoundTrip | src/term.rs:61-74 | reading back the displayed text of a term with valid names gives its names and shape |
| DisplayParse.DisplayInjective | src/term.rs:61-74 | two terms that display alike have the same names and shape |
| Reduce.WellFormedWeaken | src/term/reduce.rs:58-61 | a term well-formed under some binders stays well-formed under more |
| Reduce.ShiftedByZero | src/term/reduce.rs:122-133 | shifting by zero is the identity |
| Reduce.ShiftedClosed | src/term/reduce.rs:122-133 | indices below the cutoff are untouched, so a term closed below it is unchanged |
| Reduce.ShiftedTwice | src/term/reduce.rs:122-133 | two shifts at the same cutoff add up |
| Reduce.ShiftedWellFormed | src/term/reduce.rs:122-133 | shifting by a moves a term well-formed under d binders to one well-formed under d + a |
| Reduce.ShiftedKeepsNames | src/term/reduce.rs:122-133 | shifting keeps free names, shape at the root and abstraction labels |
| Reduce.OpenWellFormed | src/term/reduce.rs:106-120 | opening a body well-formed under d + 1 binders at d with a closed-enough replacement gives a term well-formed under d |
| Reduce.OpenShifted | src/term/reduce.rs:106-120 | a term that does not use index d (shifted past it) opens at d to itself |
| Reduce.OpenFreeNames | src/term/reduce.rs:106-120 | opening brings in only the replacement's free names |
| Reduce.Position | src/term/reduce.rs:241-255 | the result is the index of the first matching stack entry, and None exactly when there is none |
| Reduce.ToLocalNamelessWellFormed | src/term/reduce.rs:241-255 | the forward conversion leaves no dangling index and stores every parameter as Free |
| Reduce.RoundTrip | src/term/reduce.rs:175-179 | converting to locally-nameless form and back gives the original term |
| Reduce.ToClassicSucceedsIffWellFormed | src/term/reduce.rs:135-153 | the conversion back succeeds exactly on well-formed terms |
| Reduce.ToClassicErrors | src/term/reduce.rs:135-153 | InvalidVarIndex(k) means some Bound(k) dangles; InvalidAbsParam(k) means some parameter is Bound(k) |
| Reduce.ToClassicCheckedSound | src/term/reduce.rs:135-153 | the capture-checked conversion back produces only names that read back as the same term, and agrees with to_classic where it succeeds |
| Reduce.ToClassicCheckedComplete | src/term/reduce.rs:241-255 | the capture-checked conversion back succeeds on every term converted from a named term, giving that term |
| Reduce.RebindWellFormed | src/term/reduce.rs:160-172 | with closed definitions, rebinding keeps a term well-formed |
| Reduce.RebindUnbound | src/term/reduce.rs:160-172 | a term with no free name in the table is unchanged |
| Reduce.RebindFreeNames | src/term/reduce.rs:160-172 | the free names afterwards are the unbound names plus the free names of the definitions used |
| Normal.NormalStep | src/term/reduce/normal.rs:15-34 | a step that reports no reduction leaves the term unchanged, and it reports one exactly when the term has a redex |
| Normal.NormalStepWellFormed | src/term/reduce/normal.rs:20-25 | a step keeps a well-formed term well-formed |
| Normal.NormalStepReduces | src/term/reduce/normal.rs:15-34 | a chain of single beta-contractions leads from the term to the stepped term, non-trivial exactly when a reduction is reported |
| BetaReduce.BetaReduceWhile | src/term/reduce.rs:32-38 | the count is the number of steps before the first false predicate or first non-reducing step; the term is the iterate, with that last step applied when the predicate held |
| BetaReduce.BetaReduceLimit | src/term/reduce.rs:41-43 | the count is at most the limit, every counted step reduced, and a count below the limit means the next step found nothing |
| BetaReduce.BetaReduceFull | src/term/reduce.rs:27-29 | the count is the number of reducing steps before the first non-reducing one, and the term is the result of that step |
| BetaReduce.IterateWellFormed | src/term/reduce.rs:58-61 | normal-order iteration keeps well-formedness |
| BetaReduce.IterateNormalForm | src/term/reduce.rs:21-23 | once a normal form is reached, further steps change nothing |
| BetaReduce.IterateReduces | src/term/reduce.rs:24 | n iterated steps are a beta-reduction with at least n contractions when every step reported one |
| BetaReduce.LimitOutcomeMonotone | src/term/reduce.rs:41-43 | once a run under one limit ends on a normal form (including a count equal to the limit), any larger limit gives the same count and term |
| BetaReduce.ConvertBack | src/term/reduce.rs:212-239 | after any number of normal-order steps the conversion back succeeds, so the unwrap never fails |
| BetaReduce.BetaReducedLimit | src/term/reduce.rs:233-239 | the count obeys the limit contract, the term is the converted iterate, and a term with no redex comes back unchanged with count 0 |
| BetaReduce.BetaReducedWhile | src/term/reduce.rs:221-230 | the count obeys the predicate contract and the term is the converted iterate |
| BetaReduce.BetaReduced | src/term/reduce.rs:212-218 | the result is a normal form reached after exactly the counted reducing steps |
| Repl.Repl.constructor | src/repl.rs:118-124 | a new REPL has no bindings and a limit of 1000 |
| Repl.Repl.Exec | src/repl.rs:81-115 | per command: reduce leaves the state alone and reports the result plus a warning iff count ≥ limit; a statement list updates the table statement by statement with one outcome each; get/set/exit read, set or leave the limit |
| Repl.Repl.ReduceOutcomes | src/repl.rs:84-95 | the term is resolved against the table and reduced up to the limit; the outcome holds the converted result; ReduceLimitReached(count) follows exactly when count ≥ limit |
| Repl.Repl.ExecStatement | src/repl.rs:97-105 | the statement's resolved term is inserted; BindOverwritten when the name was present, BindAdded otherwise |
| Repl.BindOutcomesLength | src/repl.rs:96-106 | one outcome per statement |
| Repl.BindOutcomeAt | src/repl.rs:96-106 | outcome i is BindOverwritten exactly when its name is in the table left by statements 0..i-1 |
| Repl.BindAllKeys | src/repl.rs:96-106 | the table gains exactly the bound names |
| Repl.BindAllUntouched | src/repl.rs:96-106 | names no statement binds keep their definitions |
| Repl.BindAllLastBinding | src/repl.rs:96-101 | a name ends with its last binding's term, resolved against the table as the earlier statements left it |
| Repl.BindAllClosed | src/repl.rs:96-106 | binding keeps every definition free of dangling indices |
| Repl.OutcomesNonEmpty | src/repl.rs:80-81 | a statement list yields at least one outcome exactly when it is non-empty |
| LegacyReduce.IntoLocalNamelessWellFormed | src/reduce.rs:44-59 | the legacy forward conversion meets the backward one's precondition |
| LegacyReduce.RoundTrip | src/reduce.rs:93-98 | converting to locally-nameless form and back gives the original term |
| LegacyReduce.ToEngineWellFormed | src/reduce.rs:6-9 | the legacy and engine notions of well-formedness agree |
| LegacyReduce.IntoLocalNamelessAgrees | src/reduce.rs:44-59 | the legacy forward conversion gives the same term as the engine's |
| LegacyReduce.OpenWithAgreesOnClosed | src/reduce.rs:21-40 | without shifting or decrementing, open_with still matches the engine's open when nothing needs adjusting |
| LegacyReduce.OpenWithNoDecrement | src/reduce.rs:21-29 | an index past the replaced one is left undecremented, where the engine decrements it |
| LegacyReduce.OpenAsWrittenSkipsOwnBinder | src/reduce.rs:14-19 | as written, opening an abstraction substitutes for index 1 of its body, not index 0 |
| LegacyReduce.OpenAsWrittenIdentity | src/reduce.rs:14-19 | on λx. x with replacement y the as-written open gives a dangling Bound(0); the corrected one gives y |
| LegacyReduce.OpenCorrectedContracts | src/reduce.rs:14-19 | the corrected open contracts a closed redex to a closed term equal to the engine's result |
| Cli.Utf8Len | src/main.rs:138-152 | a char takes 1 to 4 bytes, and exactly 1 when it is ASCII |
| Cli.IntoCharIndex | src/main.rs:138-152 | the loop returns the char the byte offset falls in, or the char count past the end |
| Cli.IntoCharSpan | src/main.rs:133-136 | both ends of the span are converted independently |
| Cli.CharIndexSpec | src/main.rs:138-152 | the result is at most the char count, equals it exactly when the offset is past the end, and otherwise is the char whose bytes contain the offset |
| Cli.CharIndexOfCharStart | src/main.rs:138-152 | the byte offset where char i starts converts back to i |
| Cli.CharIndexAscii | src/main.rs:144-146 | on an all-ASCII line the result is min(b, length) |
| Cli.CharIndexMonotone | src/main.rs:138-152 | later bytes never fall in earlier chars, so converted spans stay ordered |
| Cli.LimitWarning | src/main.rs:58-60 | the warning appears exactly when the count equals the limit, and its absence means the printed term is a normal form |
| Examples.DisplayCompose | src/term/tests.rs:7-9 | compose displays as `λf. λg. λx. f (g x)` |
| Examples.DisplayFlip | src/term/tests.rs:17-19 | flip displays as `λf. λx. λy. f y x` |
| Examples.DisplayConstant | src/term/tests.rs:37-39 | constant displays as `λx. λy. x` |
| Examples.DisplayOmega | src/term/tests.rs:47-49 | omega displays as `(λx. x x) (λx. x x)` |
| Examples.DisplaySub | src/term/tests.rs:67-69 | sub displays as `λx. λy. λz. x z (y z)` |
| Examples.NearestBinderWins | src/term/reduce.rs:241-255 | in `λx. λx. x` the variable refers to the inner binder, and the term converts back unchanged |
| Examples.RenameShadowed | src/term.rs:42-52 | renaming `λx. λx. x` numbers the binders 0 and 1 and gives the variable id 1 |
| Examples.OmegaIterate | src/prelude/combinators.rs:36-38 | Ω steps to itself and reports a reduction every time |
| Examples.StepOnceUnderRedex | src/term/reduce/normal.rs:20-26 | on `(λx. (λa. a) ((λb. b) x)) y` one step gives `(λb. b) y`, which still holds a redex: the body is stepped once, not reduced fully |
| Examples.CaptureOnConvertBack | src/term/reduce.rs:137-141 | `(λx. λy. x) y` steps to a normal form that to_classic names `λy. y`, which reads back as a different term; the capture-checked conversion refuses it |
| Examples.OmegaHitsLimit | src/term/reduce.rs:41-43 | a limited reduction of Ω always uses its whole limit (5 for a limit of 5) |
| Examples.LimitEqualsSteps | src/term/reduce.rs:41-43 | `(λx. x) y` under a limit of 1 gives count 1, equal to the limit, on a normal form, and every larger limit gives the same count |
| Examples.DiscardDivergentArgument | src/lib.rs:44-45 | `(λx. z) ((λw. w w w) (λw. w w w))` reaches `z` in exactly one step for any positive limit |
| Examples.Session | src/repl.rs:81-115 | a fresh REPL binds `id` (BindAdded) and then reduces `id y` to `y` in one step with no warning |

## Left out

- LegacyReduce.IntoClassic: the source panics in two places. It indexes the binder stack past its end (src/reduce.rs:66), and it reaches `unreachable!()` on a `Bound` parameter (src/reduce.rs:74). Both are modelled as the precondition that the term is well-formed under the stack. Only output of `into_local_nameless` ever reaches the function, and that output meets the precondition (`LegacyReduce.RoundTrip`).
- Reduce.ToClassic: the entry points of `BetaReduce` and the REPL keep the as-written conversion back, which can capture a free name (see Findings). `Reduce.ToClassicChecked` is the capture-free version, stated beside it, and nothing else uses it. A renaming fix is not modelled, because an arbitrary identifier type has no supply of fresh names.
- Lexers and parsers (`src/lexer.rs`, `src/parser.rs`, `src/repl/lexer.rs`, `src/repl/parser.rs`): they are generated by derive macros and combinator libraries. The only fact taken from them is that an `Exec` command has at least one statement. `DisplayParse` is a reference reader written for the proof; it is not a model of those parsers.
- The stdin loop of `src/main.rs` and its report printing are I/O. `main` also builds its own binding table and calls APIs with stale signatures. Only `into_char_index`, `into_char_span` and the limit-reached check are modelled.
- Width of `usize`: counts, limits, indices and ids are unbounded `nat`. Overflow would need more than 2^64 steps or binders.
- BetaReduce.BetaReduceWhile, BetaReduce.BetaReduceFull, BetaReduce.BetaReducedWhile and BetaReduce.BetaReduced: these loops need not stop (Ω). Each requires that the run stops at some step, which covers every run that stops; divergent runs are not modelled.
- BetaReduce.BetaReduceWhile: the predicate is a pure function of the term and the count. State that a `FnMut` closure keeps between calls is not modelled.
- In-place updates through `&mut` are modelled as functions returning the new value. These are `open`, `rebind`, `beta_reduce_step`, `open_with` and the renaming pass on trees, plus the counter increment in `Ident::bound` and the id assignment in `Ident::rebind`. The trees and maps are exclusively owned, so only the order of the updates within one call is not represented.
- The placeholder that `mem::replace` leaves while a redex is rewritten (`src/term/reduce/normal.rs:24`) cannot be observed and is not modelled.
- A second strategy: `Normal` is the only implementation of `BetaReduce` in the repository. The drivers take any step function, but the entry points are specialised to `Normal`.
- The prelude (`src/prelude/combinators.rs`, `src/prelude/boolean.rs`) holds constants only. A few of its terms appear as inputs in `Examples`.
- The displayed string of the `universal` combinator (`src/term/tests.rs:118`) is not pinned. Its proof by evaluation is too large, and the general layout lemmas and `DisplayParse.DisplayRoundTrip` cover the same printer.
- The `lambda!`, `abs!`, `app!` and `var!` macros of `src/term.rs` are token-level. Their outputs appear as constructor calls.
- `Deref`/`AsRef` glue, `HashMap` hashing (a Dafny `map` is used), recursion depth and stack overflow.

## Findings

| source | as written | input that shows it | evidently intended | confidence | as-written member | corrected member |
|---|---|---|---|---|---|---|
| src/reduce.rs:14-19 | `open` calls `open_with(0, …)` on the abstraction node itself, which passes `depth + 1` to the body, so the body is opened at index 1 | `open` of `λx. x` (`Abs(Free(x), Bound(0))`) with replacement `y` returns `Bound(0)`, a dangling index, instead of `y` | open the abstraction's body at index 0 | not executed | LegacyReduce.OpenAsWrittenIdentity | LegacyReduce.OpenCorrectedContracts |
| src/term/reduce.rs:137-141 | `to_classic` names `Bound(k)` after the k-th stacked binder and `Free(v)` after itself, without checking that the name is not captured by a nearer binder of the same name | `(λx. λy. x) y` steps to `Abs(Free(y), Free(y))`, a normal form whose body is the outer free `y`; `to_classic` gives `λy. y`, so `beta_reduced` answers the identity | reduction needs no α-conversion (src/term/reduce.rs:78, src/lib.rs:48), so the named result should denote the reduct: reading it back should give the same term. The corrected conversion refuses a capturing name; renaming is not possible for an arbitrary identifier type | not executed | Examples.CaptureOnConvertBack | Reduce.ToClassicCheckedSound |

# yalp parse driver, modelled in Dafny

This project models `yy::Driver` from `lang/include/lang/driver.hpp`. The
driver is the glue between the Flex lexer and the Bison parser of the yalp
language front end. It does three things:

- **Node arena** (`create`). It owns every AST node in a vector that only
  grows. `create` appends one node and returns a pointer to it.
- **Token bridge** (`yylex`). It asks the lexer for the next token kind. For
  `ID`, `FIXED_VAL` and `INT_VAL` it allocates one leaf node from the matched
  text and places a typed pointer to it in the parser's semantic value. For
  every other kind it allocates nothing and leaves the semantic value alone.
  In all cases it returns the kind unchanged.
- **Parse driver** (`setASTRoot`, `buildAST`). It binds a lexer over the
  input stream and runs the parser. The parser calls back into the bridge and
  into `setASTRoot`. When the parser returns, the driver unbinds the lexer
  and returns whatever root pointer is stored. The parser's status code is
  ignored. When the parser throws, the exception propagates and the unbinding
  statement never runs.

The model is functional. A `Driver` is an immutable record with three fields:
the arena (`seq<Node>`), the bound lexer (`Option<Lexer>`, where `None` is the
null pointer) and the root (`Option<Handle>`). A handle is an arena index and
stands in for a node pointer. Each C++ member function becomes a pure
transition. Collaborators we cannot see are abstracted:

- The Flex lexer is a finite sequence of `(kind, text)` pairs. Once the
  sequence is exhausted it reports end of input (kind 0, empty text) on every
  further call.
- The Bison parser is a `ParserRun`: the calls it makes into the driver, in
  order, plus how `parse()` ends (a status code, or an exception). A call is
  a token request (`Lex`), an allocation by a grammar action (`Reduce`), or a
  root record (`SetRoot`, whose argument may be null).
  The parser is assumed to hand the bridge an empty semantic-value slot each
  time it asks for a token.
- `std::atof` is a parameter `atof: string -> Double`. `Double` is the 64-bit
  pattern of a C++ `double` and is never interpreted.
- `std::atoi` is modelled: skip leading white space, accept an optional sign,
  then read the longest run of decimal digits. Text with no such run gives 0.

Modules: `Wrappers` (Option), `Ast` (nodes and handles), `Numeric` (atoi),
`Arena` (the append-only store), `Lexer` (the token stream), `Driver` (the
class itself) and `DriverProperties` (facts that relate several calls, plus
the reference definitions they are stated against).

What `buildAST` hands back is decided by the stored root alone.
`buildAST` never consults `parse()`'s result. After a failed parse it returns
whatever root is stored: the one recorded most recently, possibly by an
earlier call, or, on a driver that never recorded one, the uninitialised
pointer. See `BuildASTReturnsLastRoot`, `BuildASTIgnoresVerdict` and the
findings below.

## Model

| member | source | states |
|---|---|---|
| Arena.Create | lang/include/lang/driver.hpp:27-32 | creating a node grows the arena by exactly one slot; the returned handle is that new last slot and holds exactly the requested node; every earlier slot is unchanged |
| Arena.CreateAll | lang/include/lang/driver.hpp:27-32 | a run of creations appends its nodes in call order; the i-th call returns handle (old size + i), which denotes the i-th node |
| Arena.CreateAllHandlesDistinct | lang/include/lang/driver.hpp:27-32 | two distinct creation calls never return the same handle, and each handle still denotes its own node after later creations |
| Arena.ExtendsKeepsHandles | lang/include/lang/driver.hpp:22 | because the node vector only grows, a handle valid earlier is still valid later and denotes the same node |
| Lexer.Next | lang/include/lang/driver.hpp:35 | a lexer call returns the next input token and moves past it; once the input is exhausted it returns end of input (kind 0, empty text) and stays where it is |
| Lexer.NextMany | lang/include/lang/driver.hpp:35 | n successive lexer calls yield exactly n tokens |
| Lexer.NextManyLeavesRest | lang/include/lang/driver.hpp:35 | after n lexer calls the lexer is left just past the input tokens those calls consumed |
| Lexer.NextManyYieldsInputThenEnd | lang/include/lang/driver.hpp:35 | the i-th lexer call returns the i-th input token while input remains, and end of input after that |
| Numeric.Atoi | lang/include/lang/driver.hpp:53 | the integer literal's value is nonzero only when a digit follows the leading white space and optional sign; it is negative only when that sign is '-', and positive only when it is not |
| Numeric.AtoiOfDigits | lang/include/lang/driver.hpp:53 | on a plain digit string, the integer literal's stored value is the string's decimal value |
| Numeric.AtoiShowRoundTrip | lang/include/lang/driver.hpp:53 | converting the decimal rendering of any integer back gives that integer |
| Numeric.AtoiStopsAtDigitEnd | lang/include/lang/driver.hpp:53 | conversion reads only the leading digit run; the text after the first non-digit is ignored |
| Numeric.AtoiSkipsLeadingSpace | lang/include/lang/driver.hpp:53 | leading white space does not change the converted value |
| Numeric.AtoiWithoutDigitsIsZero | lang/include/lang/driver.hpp:53 | malformed text, with no digit after the optional space and sign, silently converts to 0 instead of being rejected |
| Driver.Fresh | lang/include/lang/driver.hpp:20-24 | a new driver owns no nodes and has no lexer bound; its root is null, as the corrected declaration would make it |
| Driver.FreshAsWritten | lang/include/lang/driver.hpp:20-24 | a new driver as declared owns no nodes and has no lexer bound, but its root is whatever indeterminate value it happens to hold |
| Driver.Create | lang/include/lang/driver.hpp:27-32 | a creation through the driver appends exactly one node, returns the new slot's handle, and leaves the lexer binding and the root untouched |
| Driver.Yylex | lang/include/lang/driver.hpp:34-63 | the returned kind is exactly the lexer's; ID allocates one Id holding the verbatim text, FIXED_VAL one FixedVal holding atof of the text, INT_VAL one IntVal holding atoi of the text, each with the new handle as payload; any other kind leaves the arena and the payload unchanged; the root is untouched |
| Driver.SetASTRoot | lang/include/lang/driver.hpp:65 | recording a root, null included, stores exactly that pointer and changes nothing else: the arena and the lexer binding stay as they were |
| Driver.Step | lang/include/lang/driver.hpp:73-75 | each parser callback keeps the lexer bound and the arena extended; only a token request yields a token, only a token request or a reduction allocates, a reduction allocates exactly its node, and only a root record changes the root |
| Driver.Run | lang/include/lang/driver.hpp:73-75 | while the parser runs, the lexer stays bound, the arena only grows, and the parser gets one token per request |
| Driver.BuildAST | lang/include/lang/driver.hpp:67-79 | when the parser returns, buildAST unbinds the lexer and returns the driver's stored root; when the parser throws, the exception propagates and the lexer stays bound; either way every node allocated before is still in place |
| Driver.BuildASTReleasing | lang/include/lang/driver.hpp:71-76 | with the binding released on every path, the lexer is unbound after the call whether the parser returns or throws, and everything else agrees with buildAST |
| DriverProperties.LastRootIsLastRecord | lang/include/lang/driver.hpp:65 | the reference root is the prior root when no root is recorded, and otherwise exactly the argument of a root record that no later root record follows |
| DriverProperties.CreateTwiceDistinct | lang/include/lang/driver.hpp:27-32 | two successive creations return distinct handles, and the first handle still denotes its node |
| DriverProperties.YylexAllocatesLeafOf | lang/include/lang/driver.hpp:37-60 | the bridge appends exactly the leaf the token stands for: one node for an identifier or a literal, none for any other kind |
| DriverProperties.YylexPayloadIffValueToken | lang/include/lang/driver.hpp:37-60 | given an empty slot, the bridge sets a payload if and only if the token is an identifier or a literal |
| DriverProperties.DenotesStable | lang/include/lang/driver.hpp:41-55 | a typed payload pointer stays valid, with its node of the matching type, as the arena grows |
| DriverProperties.RunRecordsLastRoot | lang/include/lang/driver.hpp:65 | after any sequence of parser callbacks, the stored root is the one the last root record named, or the earlier root if none did |
| DriverProperties.RunAllocates | lang/include/lang/driver.hpp:27-60 | a parse appends exactly the reference allocation sequence, in call order: the leaf of each token handed over and the node of each grammar-action allocation; the lexer ends just past the tokens pulled |
| DriverProperties.AllocatedWithoutReductions | lang/include/lang/driver.hpp:37-60 | when no grammar action allocates, the reference allocation sequence is exactly the leaves of the tokens handed over |
| DriverProperties.RunAllocatesLeavesInOrder | lang/include/lang/driver.hpp:34-60 | without grammar-action allocations, a parse appends exactly the leaves of the tokens it pulled, in source order, and leaves the lexer just past them |
| DriverProperties.RunPassesKindsThrough | lang/include/lang/driver.hpp:35-62 | the parser receives the lexer's kinds in order and unchanged |
| DriverProperties.RunPayloadIffValueToken | lang/include/lang/driver.hpp:37-60 | a token the parser receives has a payload exactly when it is an identifier or a literal |
| DriverProperties.RunPayloadsDenote | lang/include/lang/driver.hpp:41-55 | every payload the parser receives points, at the end of the parse, at a node of the matching type |
| DriverProperties.RunKeepsRootValid | lang/include/lang/driver.hpp:65 | if the stored root starts valid and the parser only records null or allocated nodes, the stored root stays null or a valid handle |
| DriverProperties.BuildASTReturnsLastRoot | lang/include/lang/driver.hpp:75-78 | buildAST leaves stored, and when the parser returns hands back, the root last recorded during the parse, null included; if none was recorded, the root the driver held before the call |
| DriverProperties.BuildASTIgnoresVerdict | lang/include/lang/driver.hpp:75 | the status code the parser returns has no effect on buildAST's result or on the driver |
| DriverProperties.ThrowingParseLeavesLexerBound | lang/include/lang/driver.hpp:75-76 | when the parser throws, the exception propagates and the driver stays bound to the call's own lexer, positioned just past the tokens pulled |
| DriverProperties.BuildASTKeepsHandles | lang/include/lang/driver.hpp:22 | a handle obtained before buildAST denotes the same node after it |
| DriverProperties.BuildASTAllocates | lang/include/lang/driver.hpp:67-79 | buildAST appends exactly the reference allocation sequence for the input tokens the lexer yields, whether the parser returns or throws |
| DriverProperties.LeavesOfScannedInput | lang/include/lang/driver.hpp:35 | the leaves of what the lexer yields are those of the input tokens it consumed; end of input adds none |
| DriverProperties.BuildASTLeavesInSourceOrder | lang/include/lang/driver.hpp:67-79 | without grammar-action allocations, buildAST appends exactly the leaves of the consumed input tokens, in source order |
| DriverProperties.FreshDriverRoot | lang/include/lang/driver.hpp:24 | on a driver whose root starts out null, a returning parse that records no root returns null, and a parse that records only null or allocated nodes leaves a valid root |
| DriverProperties.UninitialisedRootEscapes | lang/include/lang/driver.hpp:24 | with the root left uninitialised, a failed parse on a new driver returns the stale value, here a handle that denotes no node |

## Left out

- The Flex lexer's internals (`yyFlexLexer`, `switch_streams`, `YYText`) and the `std::istream` input. They are a foreign library and I/O, so the lexer is a finite sequence of (kind, text) pairs.
- Lexer failures on unrecognised input. They belong to the lexer's rules, which are not part of this model.
- The Bison parser (`parser::parse`): its tables, grammar actions and error recovery. It is foreign generated code, so it is an abstract sequence of callbacks ending in a status code or an exception. The model does not tie those callbacks to the tokens the parser receives.
- Which exception the parser throws, and a failed allocation inside `create` as its own event. Any exception is one `Threw` outcome after the callbacks that completed.
- Composite AST node kinds. They are defined in headers that are not part of this model, so one generic `Composite` node stands in for them.
- `std::atof` and the value a `FixedVal` holds. This is floating point, so it is a parameter that is never interpreted.
- Numeric.Atoi: does not model C `int` overflow, which is undefined behaviour in `atoi`. Values are unbounded integers. It also does not model locale-dependent white space.
- `unique_ptr` ownership, `dynamic_cast` and the `semantic_type` variant mechanics. These are C++ memory and RTTI details. Index handles and a tagged semantic value capture the intent, and `Denotes` states that the cast succeeds.
- Calling `yylex` with no lexer bound. That dereferences a null pointer, so `Driver.Yylex` requires a bound lexer.
- Destruction of the driver and its nodes. The model has no lifetimes.

## Findings

| source | as written | input that shows it | evidently intended | confidence | as-written member | corrected member |
|---|---|---|---|---|---|---|
| lang/include/lang/driver.hpp:24 | `m_ast_root` has no initialiser. A default-initialised driver (`Driver d;`) holds an indeterminate root until `setASTRoot` runs, and `buildAST` reads it; in C++ that read is undefined behaviour. A value-initialised driver (`Driver d{}`) starts at null | a default-initialised driver whose parse fails on its first token (for example input `@`) before any root is recorded | the root starts out null, so a failed first parse returns null | medium, not executed | DriverProperties.UninitialisedRootEscapes | DriverProperties.FreshDriverRoot |
| lang/include/lang/driver.hpp:75-76 | the lexer is unbound by a plain statement after `parse()`, so an exception from the parser skips it and `m_lexer` keeps pointing at the local `yyFlexLexer`, which is destroyed as the exception leaves `buildAST` | a parse whose grammar action throws, or whose `create` fails to allocate | the binding is released on every path, so the driver never points at a destroyed lexer | low, not executed | DriverProperties.ThrowingParseLeavesLexerBound | Driver.BuildASTReleasing |

`Driver.FreshAsWritten` builds a driver as declared: its root is an arbitrary
value supplied by the caller, which stands for the undefined read. `Driver.Fresh`
builds the corrected driver with a null root, and the lemmas about new
drivers start from it.

`Driver.BuildAST` models the code as written, including the binding left
behind by an exception. `Driver.BuildASTReleasing` is the corrected call. It
is identical to `BuildAST` whenever the parser returns, so every lemma about
returning parses holds for it unchanged.

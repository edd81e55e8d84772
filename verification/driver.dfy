/**
 The driver: owner of the node arena, bridge from the lexer to the parser,
 and orchestrator of one parse. Every operation is a pure transition on an
 immutable `Driver` record.
 */
module Driver {
  import opened Wrappers
  import opened Ast
  import opened Lexer
  import Arena
  import Numeric

  /** `lexer` is None while no lexer is bound (the null lexer pointer);
      `root` is None while the root pointer is null */
  datatype Driver = Driver(nodes: seq<Node>, lexer: Option<Lexer>, root: Option<Handle>)

  /** A driver whose root pointer starts out null */
  function Fresh(): (d: Driver)
    ensures |d.nodes| == 0 && d.lexer.None? && d.root.None?
  {
    Driver([], None, None)
  }

  /** A driver as declared, whose root pointer is never initialised: it holds
      whatever value `indeterminate` stands for */
  function FreshAsWritten(indeterminate: Option<Handle>): (d: Driver)
    ensures |d.nodes| == 0 && d.lexer.None? && d.root == indeterminate
  {
    Driver([], None, indeterminate)
  }

  // ---------------------------------------------------------------- arena

  datatype Created = Created(driver: Driver, handle: Handle)

  /** Allocate one node in the arena and return its handle */
  function Create(d: Driver, node: Node): (r: Created)
    ensures |r.driver.nodes| == |d.nodes| + 1
    ensures r.handle == |d.nodes| && r.driver.nodes[r.handle] == node
    ensures Arena.Extends(d.nodes, r.driver.nodes)
    ensures r.driver.lexer == d.lexer && r.driver.root == d.root
  {
    var a := Arena.Create(d.nodes, node);
    Created(d.(nodes := a.nodes), a.handle)
  }

  // --------------------------------------------------------- token bridge

  /** The parser's semantic-value slot: empty, or a typed pointer to a leaf */
  datatype SemanticValue =
    | NoValue
    | IdRef(handle: Handle)
    | FixedValRef(handle: Handle)
    | IntValRef(handle: Handle)

  /** The pointer in `v`, if any, is valid in `nodes` and points at a node of
      the type it is declared with, so a cast to that type succeeds */
  predicate Denotes(nodes: seq<Node>, v: SemanticValue) {
    match v
    case NoValue => true
    case IdRef(h) => h < |nodes| && nodes[h].Id?
    case FixedValRef(h) => h < |nodes| && nodes[h].FixedVal?
    case IntValRef(h) => h < |nodes| && nodes[h].IntVal?
  }

  datatype Lexed = Lexed(driver: Driver, value: SemanticValue, kind: TokenKind)

  /** Pull the next token from the bound lexer, allocate a leaf for an
      identifier or a literal, and pass the token kind on to the parser.
      `atof` is the text-to-double conversion, left uninterpreted. */
  function Yylex(d: Driver, value: SemanticValue, atof: string -> Double): (r: Lexed)
    requires d.lexer.Some?
    ensures var scanned := Next(d.lexer.value);
      && r.kind == scanned.token.kind
      && r.driver.lexer == Some(scanned.rest)
      && (r.kind == IdToken ==>
            r.value == IdRef(|d.nodes|) && r.driver.nodes == d.nodes + [Id(scanned.token.text)])
      && (r.kind == FixedValToken ==>
            r.value == FixedValRef(|d.nodes|)
            && r.driver.nodes == d.nodes + [FixedVal(atof(scanned.token.text))])
      && (r.kind == IntValToken ==>
            r.value == IntValRef(|d.nodes|)
            && r.driver.nodes == d.nodes + [IntVal(Numeric.Atoi(scanned.token.text))])
    ensures r.kind.OtherToken? ==> r.driver.nodes == d.nodes && r.value == value
    ensures r.driver.root == d.root
    ensures Arena.Extends(d.nodes, r.driver.nodes)
    ensures !r.kind.OtherToken? ==> Denotes(r.driver.nodes, r.value)
  {
    var scanned := Next(d.lexer.value);
    var text := scanned.token.text;
    var bound := d.(lexer := Some(scanned.rest));
    match scanned.token.kind
    case IdToken =>
      var c := Create(bound, Id(text));
      Lexed(c.driver, IdRef(c.handle), IdToken)
    case FixedValToken =>
      var c := Create(bound, FixedVal(atof(text)));
      Lexed(c.driver, FixedValRef(c.handle), FixedValToken)
    case IntValToken =>
      var c := Create(bound, IntVal(Numeric.Atoi(text)));
      Lexed(c.driver, IntValRef(c.handle), IntValToken)
    case OtherToken(code) =>
      Lexed(bound, value, OtherToken(code))
  }

  // --------------------------------------------------------- parse driver

  /** Record `root` as the root of the finished AST; `None` is the null
      pointer, which the parser may pass like any other */
  function SetASTRoot(d: Driver, root: Option<Handle>): (r: Driver)
    ensures r.root == root
    ensures r.nodes == d.nodes && r.lexer == d.lexer
  {
    d.(root := root)
  }

  /** What the parser does to the driver, one call at a time: ask for a token,
      allocate a node in a grammar action, or record the root */
  datatype Event = Lex | Reduce(node: Node) | SetRoot(root: Option<Handle>)

  /** How `parse()` ends: it finishes with a status code, or an exception (a
      failed allocation, a throwing grammar action) escapes from it */
  datatype ParseOutcome = Finished(status: int) | Threw

  /** The parser seen from the driver: the calls it makes, in order, and how
      it ends */
  datatype ParserRun = ParserRun(events: seq<Event>, outcome: ParseOutcome)

  /** A token as the parser receives it */
  datatype Token = Token(kind: TokenKind, value: SemanticValue)

  datatype Stepped = Stepped(driver: Driver, tokens: seq<Token>)

  /** One parser call into the driver. The parser hands the bridge an empty
      semantic-value slot. */
  function Step(d: Driver, e: Event, atof: string -> Double): (r: Stepped)
    requires d.lexer.Some?
    ensures r.driver.lexer.Some?
    ensures Arena.Extends(d.nodes, r.driver.nodes)
    ensures e.Lex? ==> |r.tokens| == 1 && r.driver.root == d.root
    ensures !e.Lex? ==> r.tokens == [] && r.driver.lexer == d.lexer
    ensures e.Reduce? ==> r.driver.nodes == d.nodes + [e.node] && r.driver.root == d.root
    ensures e.SetRoot? ==> r.driver.nodes == d.nodes && r.driver.root == e.root
  {
    match e
    case Lex =>
      var l := Yylex(d, NoValue, atof);
      Stepped(l.driver, [Token(l.kind, l.value)])
    case Reduce(node) =>
      Stepped(Create(d, node).driver, [])
    case SetRoot(root) =>
      Stepped(SetASTRoot(d, root), [])
  }

  /** The number of tokens the parser asks for */
  function LexCount(events: seq<Event>): (n: nat)
    ensures n <= |events|
  {
    if |events| == 0 then 0 else (if events[0].Lex? then 1 else 0) + LexCount(events[1..])
  }

  datatype Ran = Ran(driver: Driver, tokens: seq<Token>)

  /** The parser's calls, in order, with the lexer bound throughout */
  function Run(d: Driver, events: seq<Event>, atof: string -> Double): (r: Ran)
    requires d.lexer.Some?
    ensures r.driver.lexer.Some?
    ensures Arena.Extends(d.nodes, r.driver.nodes)
    ensures |r.tokens| == LexCount(events)
    decreases |events|
  {
    if |events| == 0 then Ran(d, [])
    else
      var s := Step(d, events[0], atof);
      var rest := Run(s.driver, events[1..], atof);
      Arena.ExtendsTransitive(d.nodes, s.driver.nodes, rest.driver.nodes);
      Ran(rest.driver, s.tokens + rest.tokens)
  }

  /** How a call of `buildAST` ends: it returns a root pointer, or the
      parser's exception propagates to the caller */
  datatype Completion = Returned(root: Option<Handle>) | Raised

  datatype Built = Built(driver: Driver, completion: Completion)

  /** Bind a lexer over `input`, run the parser, unbind the lexer, and return
      whatever root is recorded. The parser's status code is not consulted.
      When the parser throws, the statement that unbinds the lexer is skipped:
      the driver keeps pointing at the lexer, whose lifetime ends with the
      call. */
  function BuildAST(d: Driver, input: seq<RawToken>, parser: ParserRun, atof: string -> Double): (r: Built)
    ensures parser.outcome.Finished? ==> r.driver.lexer.None? && r.completion == Returned(r.driver.root)
    ensures parser.outcome.Threw? ==> r.completion.Raised? && r.driver.lexer.Some?
    ensures Arena.Extends(d.nodes, r.driver.nodes)
  {
    var bound := d.(lexer := Some(Lexer(input)));
    var parsed := Run(bound, parser.events, atof);
    match parser.outcome
    case Threw => Built(parsed.driver, Raised)
    case Finished(_) =>
      var done := parsed.driver.(lexer := None);
      Built(done, Returned(done.root))
  }

  /** `buildAST` with the binding released on every path, as a scope guard
      would do it: identical to `BuildAST` when the parser returns, and
      unbound, with the same arena and root, when it throws */
  function BuildASTReleasing(d: Driver, input: seq<RawToken>, parser: ParserRun, atof: string -> Double): (r: Built)
    ensures r.driver.lexer.None?
    ensures parser.outcome.Finished? ==> r == BuildAST(d, input, parser, atof)
    ensures r.completion == BuildAST(d, input, parser, atof).completion
    ensures r.driver.nodes == BuildAST(d, input, parser, atof).driver.nodes
    ensures r.driver.root == BuildAST(d, input, parser, atof).driver.root
  {
    var b := BuildAST(d, input, parser, atof);
    Built(b.driver.(lexer := None), b.completion)
  }
}

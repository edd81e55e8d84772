/**
 Properties that relate several driver calls: which root a parse returns,
 which nodes it allocates and in what order, what tokens the parser sees,
 and that handles stay valid for the driver's lifetime.
 */
module DriverProperties {
  import opened Wrappers
  import opened Ast
  import opened Lexer
  import opened Driver
  import Arena
  import Numeric

  // ------------------------------------------------- reference definitions

  /** The leaf, if any, that a raw token stands for */
  function LeafOf(t: RawToken, atof: string -> Double): seq<Node> {
    match t.kind
    case IdToken => [Id(t.text)]
    case FixedValToken => [FixedVal(atof(t.text))]
    case IntValToken => [IntVal(Numeric.Atoi(t.text))]
    case OtherToken(_) => []
  }

  /** The leaves of a token sequence, in source order */
  function Leaves(ts: seq<RawToken>, atof: string -> Double): seq<Node> {
    if |ts| == 0 then [] else LeafOf(ts[0], atof) + Leaves(ts[1..], atof)
  }

  predicate NoRootRecorded(events: seq<Event>) {
    forall i :: 0 <= i < |events| ==> !events[i].SetRoot?
  }

  predicate NoReductions(events: seq<Event>) {
    forall i :: 0 <= i < |events| ==> !events[i].Reduce?
  }

  /** The root named by the last `SetRoot` call, or `prior` when there is none */
  function LastRoot(events: seq<Event>, prior: Option<Handle>): Option<Handle>
    decreases |events|
  {
    if |events| == 0 then prior
    else if events[|events| - 1].SetRoot? then events[|events| - 1].root
    else LastRoot(events[..|events| - 1], prior)
  }

  /** `LastRoot` is the prior root when no root is recorded, and otherwise the
      argument of a `SetRoot` call that no later `SetRoot` call follows */
  lemma {:induction false} LastRootIsLastRecord(events: seq<Event>, prior: Option<Handle>)
    ensures NoRootRecorded(events) ==> LastRoot(events, prior) == prior
    ensures !NoRootRecorded(events) ==>
      exists i :: 0 <= i < |events| && events[i] == SetRoot(LastRoot(events, prior))
                  && forall j :: i < j < |events| ==> !events[j].SetRoot?
    decreases |events|
  {
    if |events| > 0 {
      var n := |events| - 1;
      var earlier := events[..n];
      var r := LastRoot(events, prior);
      if events[n].SetRoot? {
        assert events[n] == SetRoot(r);
      } else {
        LastRootIsLastRecord(earlier, prior);
        assert r == LastRoot(earlier, prior);
        if NoRootRecorded(events) {
          assert NoRootRecorded(earlier) by {
            forall i | 0 <= i < n ensures !earlier[i].SetRoot? {
              assert earlier[i] == events[i];
            }
          }
        } else {
          var k :| 0 <= k < |events| && events[k].SetRoot?;
          assert k < n && earlier[k] == events[k];
          var i :| 0 <= i < n && earlier[i] == SetRoot(r)
                   && forall j :: i < j < n ==> !earlier[j].SetRoot?;
          assert events[i] == earlier[i];
          forall j | i < j < |events| ensures !events[j].SetRoot? {
            if j < n {
              assert events[j] == earlier[j];
            }
          }
        }
      }
    }
  }

  lemma {:induction false} LastRootAppend(a: seq<Event>, b: seq<Event>, prior: Option<Handle>)
    ensures LastRoot(a + b, prior) == LastRoot(b, LastRoot(a, prior))
    decreases |b|
  {
    if |b| == 0 {
      assert a + b == a;
    } else {
      assert (a + b)[..|a + b| - 1] == a + b[..|b| - 1];
      LastRootAppend(a, b[..|b| - 1], prior);
    }
  }

  /** The nodes a run of parser calls allocates, in order, when its token
      requests are answered by `tokens` (end of input once they run out): the
      leaf of each token handed over, and the node of each grammar-action
      allocation */
  function Allocated(events: seq<Event>, tokens: seq<RawToken>, atof: string -> Double): seq<Node>
    decreases |events|
  {
    if |events| == 0 then []
    else match events[0]
      case Lex =>
        if |tokens| == 0 then LeafOf(EndOfInput, atof) + Allocated(events[1..], [], atof)
        else LeafOf(tokens[0], atof) + Allocated(events[1..], tokens[1..], atof)
      case Reduce(node) => [node] + Allocated(events[1..], tokens, atof)
      case SetRoot(_) => Allocated(events[1..], tokens, atof)
  }

  /** The root, if any, is a valid handle of the arena */
  predicate RootValid(d: Driver) {
    d.root.None? || d.root.value < |d.nodes|
  }

  /** Every root the parser records is null or a node already allocated at
      that point, as it is when the grammar passes on a pointer it received
      from the driver */
  predicate RecordsAllocatedRoots(d: Driver, events: seq<Event>, atof: string -> Double)
    requires d.lexer.Some?
    decreases |events|
  {
    |events| == 0 ||
    ((events[0].SetRoot? && events[0].root.Some? ==> events[0].root.value < |d.nodes|)
     && RecordsAllocatedRoots(Step(d, events[0], atof).driver, events[1..], atof))
  }

  // ---------------------------------------------------------------- arena

  /** Two successive allocations return distinct handles, and the first handle
      still denotes its node after the second allocation */
  lemma CreateTwiceDistinct(d: Driver, first: Node, second: Node)
    ensures var c1 := Create(d, first); var c2 := Create(c1.driver, second);
      c1.handle != c2.handle && c2.driver.nodes[c1.handle] == first
  {
  }

  // --------------------------------------------------------- token bridge

  /** The bridge appends exactly the leaf the scanned token stands for */
  lemma YylexAllocatesLeafOf(d: Driver, value: SemanticValue, atof: string -> Double)
    requires d.lexer.Some?
    ensures Yylex(d, value, atof).driver.nodes == d.nodes + LeafOf(Next(d.lexer.value).token, atof)
  {
  }

  /** A payload that was valid before the bridge runs stays valid after it */
  lemma DenotesStable(earlier: seq<Node>, later: seq<Node>, v: SemanticValue)
    requires Arena.Extends(earlier, later) && Denotes(earlier, v)
    ensures Denotes(later, v)
  {
  }

  /** Handed an empty slot, the bridge fills it exactly when the token carries
      an identifier or a literal */
  lemma YylexPayloadIffValueToken(d: Driver, atof: string -> Double)
    requires d.lexer.Some?
    ensures var r := Yylex(d, NoValue, atof);
      r.value.NoValue? <==> r.kind.OtherToken?
  {
  }

  // ------------------------------------------------------------ parse run

  /** A run records, as root, the last root the parser names */
  lemma {:induction false} RunRecordsLastRoot(d: Driver, events: seq<Event>, atof: string -> Double)
    requires d.lexer.Some?
    ensures Run(d, events, atof).driver.root == LastRoot(events, d.root)
    decreases |events|
  {
    if |events| > 0 {
      var s := Step(d, events[0], atof);
      RunRecordsLastRoot(s.driver, events[1..], atof);
      assert events == [events[0]] + events[1..];
      LastRootAppend([events[0]], events[1..], d.root);
      assert [events[0]][..0] == [];
    }
  }

  /** A run appends exactly what `Allocated` says, for the tokens the lexer
      yields to its requests, and leaves the lexer just past them */
  lemma {:induction false} RunAllocates(d: Driver, events: seq<Event>, atof: string -> Double)
    requires d.lexer.Some?
    ensures var scanned := NextMany(d.lexer.value, LexCount(events));
      && Run(d, events, atof).driver.nodes == d.nodes + Allocated(events, scanned.tokens, atof)
      && Run(d, events, atof).driver.lexer == Some(scanned.rest)
    decreases |events|
  {
    var lx := d.lexer.value;
    var n := LexCount(events);
    if |events| == 0 {
      assert Allocated(events, NextMany(lx, 0).tokens, atof) == [];
    } else {
      var s := Step(d, events[0], atof);
      var rest := Run(s.driver, events[1..], atof);
      assert Run(d, events, atof).driver == rest.driver;
      RunAllocates(s.driver, events[1..], atof);
      var m := LexCount(events[1..]);
      var tail := NextMany(s.driver.lexer.value, m);
      var later := Allocated(events[1..], tail.tokens, atof);
      assert rest.driver.nodes == s.driver.nodes + later;
      match events[0]
      case Lex =>
        var first := Next(lx);
        var leaf := LeafOf(first.token, atof);
        YylexAllocatesLeafOf(d, NoValue, atof);
        assert s.driver.nodes == d.nodes + leaf;
        assert s.driver.lexer == Some(first.rest);
        assert n == m + 1;
        var all := NextMany(lx, n).tokens;
        assert all == [first.token] + tail.tokens;
        assert all[0] == first.token && all[1..] == tail.tokens;
        assert Allocated(events, all, atof) == leaf + later;
        ConcatAssociative(d.nodes, leaf, later);
      case Reduce(node) =>
        assert s.driver.nodes == d.nodes + [node] && s.driver.lexer == d.lexer;
        assert n == m;
        assert Allocated(events, tail.tokens, atof) == [node] + later;
        ConcatAssociative(d.nodes, [node], later);
      case SetRoot(_) =>
        assert s.driver.nodes == d.nodes && s.driver.lexer == d.lexer;
        assert n == m;
    }
  }

  /** Without grammar-action allocations, `Allocated` is the leaves of the
      tokens handed over */
  lemma {:induction false} AllocatedWithoutReductions(events: seq<Event>, tokens: seq<RawToken>, atof: string -> Double)
    requires NoReductions(events) && |tokens| == LexCount(events)
    ensures Allocated(events, tokens, atof) == Leaves(tokens, atof)
    decreases |events|
  {
    if |events| > 0 {
      assert NoReductions(events[1..]) by {
        forall i | 0 <= i < |events[1..]| ensures !events[1..][i].Reduce? {
          assert events[1..][i] == events[i + 1];
        }
      }
      if events[0].Lex? {
        AllocatedWithoutReductions(events[1..], tokens[1..], atof);
      } else {
        assert events[0].SetRoot?;
        AllocatedWithoutReductions(events[1..], tokens, atof);
      }
    } else {
      assert tokens == [];
    }
  }

  /** Without grammar-action allocations, a run appends exactly the leaves of
      the tokens it pulls, in source order, and leaves the lexer just past them */
  lemma RunAllocatesLeavesInOrder(d: Driver, events: seq<Event>, atof: string -> Double)
    requires d.lexer.Some?
    requires NoReductions(events)
    ensures var scanned := NextMany(d.lexer.value, LexCount(events));
      && Run(d, events, atof).driver.nodes == d.nodes + Leaves(scanned.tokens, atof)
      && Run(d, events, atof).driver.lexer == Some(scanned.rest)
  {
    RunAllocates(d, events, atof);
    AllocatedWithoutReductions(events, NextMany(d.lexer.value, LexCount(events)).tokens, atof);
  }

  lemma ConcatAssociative(a: seq<Node>, b: seq<Node>, c: seq<Node>)
    ensures (a + b) + c == a + (b + c)
  {
  }

  /** The first parser call's share of a run */
  lemma RunUnfold(d: Driver, events: seq<Event>, atof: string -> Double)
    requires d.lexer.Some? && |events| > 0
    ensures var s := Step(d, events[0], atof); var rest := Run(s.driver, events[1..], atof);
      && Run(d, events, atof).tokens == s.tokens + rest.tokens
      && Run(d, events, atof).driver == rest.driver
  {
  }

  /** Every token the parser receives carries the kind the lexer produced, in
      the order produced */
  lemma {:induction false} RunPassesKindsThrough(d: Driver, events: seq<Event>, atof: string -> Double)
    requires d.lexer.Some?
    ensures var r := Run(d, events, atof);
      var scanned := NextMany(d.lexer.value, LexCount(events)).tokens;
      && |r.tokens| == |scanned|
      && forall i :: 0 <= i < |r.tokens| ==> r.tokens[i].kind == scanned[i].kind
    decreases |events|
  {
    if |events| > 0 {
      var lx := d.lexer.value;
      var s := Step(d, events[0], atof);
      var rest := Run(s.driver, events[1..], atof);
      RunPassesKindsThrough(s.driver, events[1..], atof);
      RunUnfold(d, events, atof);
      var r := Run(d, events, atof);
      var m := LexCount(events[1..]);
      var tail := NextMany(s.driver.lexer.value, m).tokens;
      if events[0].Lex? {
        var all := NextMany(lx, m + 1).tokens;
        assert all == [Next(lx).token] + tail;
        forall i | 0 <= i < |r.tokens| ensures r.tokens[i].kind == all[i].kind {
          if i > 0 {
            assert r.tokens[i] == rest.tokens[i - 1];
            assert all[i] == tail[i - 1];
          }
        }
      } else {
        assert r.tokens == rest.tokens;
      }
    }
  }

  /** A token the parser receives has a payload exactly when it is an
      identifier or a literal */
  lemma {:induction false} RunPayloadIffValueToken(d: Driver, events: seq<Event>, atof: string -> Double)
    requires d.lexer.Some?
    ensures var r := Run(d, events, atof);
      forall i :: 0 <= i < |r.tokens| ==> (r.tokens[i].value.NoValue? <==> r.tokens[i].kind.OtherToken?)
    decreases |events|
  {
    if |events| > 0 {
      var s := Step(d, events[0], atof);
      var rest := Run(s.driver, events[1..], atof);
      RunPayloadIffValueToken(s.driver, events[1..], atof);
      RunUnfold(d, events, atof);
      var r := Run(d, events, atof);
      if events[0].Lex? {
        YylexPayloadIffValueToken(d, atof);
        forall i | 0 <= i < |r.tokens|
          ensures r.tokens[i].value.NoValue? <==> r.tokens[i].kind.OtherToken?
        {
          if i > 0 {
            assert r.tokens[i] == rest.tokens[i - 1];
          }
        }
      } else {
        assert r.tokens == rest.tokens;
      }
    }
  }

  /** Every payload the parser receives points, at the end of the run, at a
      node of the matching type */
  lemma {:induction false} RunPayloadsDenote(d: Driver, events: seq<Event>, atof: string -> Double)
    requires d.lexer.Some?
    ensures var r := Run(d, events, atof);
      forall i :: 0 <= i < |r.tokens| ==> Denotes(r.driver.nodes, r.tokens[i].value)
    decreases |events|
  {
    if |events| > 0 {
      var s := Step(d, events[0], atof);
      var rest := Run(s.driver, events[1..], atof);
      RunPayloadsDenote(s.driver, events[1..], atof);
      RunUnfold(d, events, atof);
      var r := Run(d, events, atof);
      if events[0].Lex? {
        DenotesStable(s.driver.nodes, rest.driver.nodes, s.tokens[0].value);
        forall i | 0 <= i < |r.tokens| ensures Denotes(r.driver.nodes, r.tokens[i].value) {
          if i > 0 {
            assert r.tokens[i] == rest.tokens[i - 1];
          }
        }
      } else {
        assert r.tokens == rest.tokens;
      }
    }
  }

  /** A run keeps the root valid when the parser only names allocated nodes */
  lemma {:induction false} RunKeepsRootValid(d: Driver, events: seq<Event>, atof: string -> Double)
    requires d.lexer.Some?
    requires RootValid(d) && RecordsAllocatedRoots(d, events, atof)
    ensures RootValid(Run(d, events, atof).driver)
    decreases |events|
  {
    if |events| > 0 {
      var s := Step(d, events[0], atof);
      RunKeepsRootValid(s.driver, events[1..], atof);
    }
  }

  // ------------------------------------------------------------- buildAST

  /** buildAST leaves as root the one last recorded: the parser's last
      `SetRoot`, or, when the parser recorded none, whatever root the driver
      held before; when the parser returns, that is the root handed back */
  lemma BuildASTReturnsLastRoot(d: Driver, input: seq<RawToken>, parser: ParserRun, atof: string -> Double)
    ensures BuildAST(d, input, parser, atof).driver.root == LastRoot(parser.events, d.root)
    ensures parser.outcome.Finished? ==>
      BuildAST(d, input, parser, atof).completion == Returned(LastRoot(parser.events, d.root))
    ensures NoRootRecorded(parser.events) ==> BuildAST(d, input, parser, atof).driver.root == d.root
  {
    RunRecordsLastRoot(d.(lexer := Some(Lexer(input))), parser.events, atof);
    LastRootIsLastRecord(parser.events, d.root);
  }

  /** The parser's status code does not influence the outcome */
  lemma BuildASTIgnoresVerdict(d: Driver, input: seq<RawToken>, events: seq<Event>, status1: int, status2: int, atof: string -> Double)
    ensures BuildAST(d, input, ParserRun(events, Finished(status1)), atof)
            == BuildAST(d, input, ParserRun(events, Finished(status2)), atof)
  {
  }

  /** When the parser throws, the exception propagates and the driver stays
      bound to the lexer of the call, positioned just past the tokens the
      parser pulled; that lexer no longer exists once the call is left */
  lemma ThrowingParseLeavesLexerBound(d: Driver, input: seq<RawToken>, events: seq<Event>, atof: string -> Double)
    ensures var r := BuildAST(d, input, ParserRun(events, Threw), atof);
      && r.completion == Raised
      && r.driver.lexer == Some(NextMany(Lexer(input), LexCount(events)).rest)
  {
    RunAllocates(d.(lexer := Some(Lexer(input))), events, atof);
  }

  /** Handles handed out before buildAST still denote the same nodes after it */
  lemma BuildASTKeepsHandles(d: Driver, input: seq<RawToken>, parser: ParserRun, atof: string -> Double, h: Handle)
    requires h < |d.nodes|
    ensures var after := BuildAST(d, input, parser, atof).driver.nodes;
      h < |after| && after[h] == d.nodes[h]
  {
  }

  /** buildAST appends exactly what `Allocated` says for the input tokens
      the lexer yields, whether the parser returns or throws */
  lemma BuildASTAllocates(d: Driver, input: seq<RawToken>, parser: ParserRun, atof: string -> Double)
    ensures BuildAST(d, input, parser, atof).driver.nodes
            == d.nodes + Allocated(parser.events, NextMany(Lexer(input), LexCount(parser.events)).tokens, atof)
  {
    RunAllocates(d.(lexer := Some(Lexer(input))), parser.events, atof);
  }

  lemma LeavesCons(t: RawToken, ts: seq<RawToken>, atof: string -> Double)
    ensures Leaves([t] + ts, atof) == LeafOf(t, atof) + Leaves(ts, atof)
  {
  }

  /** Leaves distribute over concatenation of token sequences */
  lemma {:induction false} LeavesAppend(a: seq<RawToken>, b: seq<RawToken>, atof: string -> Double)
    ensures Leaves(a + b, atof) == Leaves(a, atof) + Leaves(b, atof)
    decreases |a|
  {
    if |a| == 0 {
      assert a + b == b;
    } else {
      assert (a + b)[1..] == a[1..] + b;
      LeavesAppend(a[1..], b, atof);
      ConcatAssociative(LeafOf(a[0], atof), Leaves(a[1..], atof), Leaves(b, atof));
    }
  }

  /** Tokens that all carry no semantic value have no leaves */
  lemma {:induction false} LeavesOfValuelessTokens(ts: seq<RawToken>, atof: string -> Double)
    requires forall i :: 0 <= i < |ts| ==> ts[i].kind.OtherToken?
    ensures Leaves(ts, atof) == []
    decreases |ts|
  {
    if |ts| > 0 {
      LeavesOfValuelessTokens(ts[1..], atof);
    }
  }

  /** The tokens a lexer yields split into the consumed input, then tokens
      that carry no semantic value */
  lemma ScannedSplitsAtInputEnd(lx: Lexer, count: nat)
    ensures var ts := NextMany(lx, count).tokens; var k := Min(count, |lx.pending|);
      && ts[..k] == lx.pending[..k]
      && forall i :: 0 <= i < |ts[k..]| ==> ts[k..][i].kind.OtherToken?
  {
    var ts := NextMany(lx, count).tokens;
    var k := Min(count, |lx.pending|);
    forall i | 0 <= i < k ensures ts[i] == lx.pending[i] {
      NextManyYieldsInputThenEnd(lx, count, i);
    }
    forall i | 0 <= i < |ts[k..]| ensures ts[k..][i].kind.OtherToken? {
      NextManyYieldsInputThenEnd(lx, count, k + i);
    }
  }

  /** A token sequence whose tokens past `k` carry no value has the leaves of
      its first `k` tokens */
  lemma LeavesOfPrefix(ts: seq<RawToken>, k: nat, atof: string -> Double)
    requires k <= |ts|
    requires forall i :: 0 <= i < |ts[k..]| ==> ts[k..][i].kind.OtherToken?
    ensures Leaves(ts, atof) == Leaves(ts[..k], atof)
  {
    calc {
      Leaves(ts, atof);
      { assert ts == ts[..k] + ts[k..]; }
      Leaves(ts[..k] + ts[k..], atof);
      { LeavesAppend(ts[..k], ts[k..], atof); }
      Leaves(ts[..k], atof) + Leaves(ts[k..], atof);
      { LeavesOfValuelessTokens(ts[k..], atof); }
      Leaves(ts[..k], atof) + [];
      Leaves(ts[..k], atof);
    }
  }

  /** The leaves of the tokens a lexer yields are those of the input it
      consumed: end of input adds none */
  lemma LeavesOfScannedInput(lx: Lexer, count: nat, atof: string -> Double)
    ensures Leaves(NextMany(lx, count).tokens, atof)
            == Leaves(lx.pending[..Min(count, |lx.pending|)], atof)
  {
    ScannedSplitsAtInputEnd(lx, count);
    LeavesOfPrefix(NextMany(lx, count).tokens, Min(count, |lx.pending|), atof);
  }

  /** Without grammar-action allocations, buildAST appends exactly the leaves
      of the input tokens the parser consumed, in source order */
  lemma BuildASTLeavesInSourceOrder(d: Driver, input: seq<RawToken>, parser: ParserRun, atof: string -> Double)
    requires NoReductions(parser.events)
    ensures BuildAST(d, input, parser, atof).driver.nodes
            == d.nodes + Leaves(input[..Min(LexCount(parser.events), |input|)], atof)
  {
    BuildASTAllocates(d, input, parser, atof);
    AllocatedWithoutReductions(parser.events, NextMany(Lexer(input), LexCount(parser.events)).tokens, atof);
    LeavesOfScannedInput(Lexer(input), LexCount(parser.events), atof);
  }

  /** On a driver whose root starts out null, a returning parse that records
      no root hands back null, and the stored root is always a valid handle
      when the parser only names allocated nodes */
  lemma FreshDriverRoot(input: seq<RawToken>, parser: ParserRun, atof: string -> Double)
    ensures parser.outcome.Finished? && NoRootRecorded(parser.events) ==>
      BuildAST(Fresh(), input, parser, atof).completion == Returned(None)
    ensures RecordsAllocatedRoots(Fresh().(lexer := Some(Lexer(input))), parser.events, atof) ==>
      RootValid(BuildAST(Fresh(), input, parser, atof).driver)
  {
    BuildASTReturnsLastRoot(Fresh(), input, parser, atof);
    var bound := Fresh().(lexer := Some(Lexer(input)));
    if RecordsAllocatedRoots(bound, parser.events, atof) {
      RunKeepsRootValid(bound, parser.events, atof);
    }
  }

  /** With the root pointer left uninitialised, a parse that records no root
      (a syntax error on the first token, say) hands back whatever the pointer
      held: here a handle that denotes no node at all */
  lemma UninitialisedRootEscapes(atof: string -> Double)
    ensures var r := BuildAST(FreshAsWritten(Some(0)), [RawToken(OtherToken(7), "@")], ParserRun([Lex], Finished(1)), atof);
      r.completion == Returned(Some(0)) && !RootValid(r.driver)
  {
  }
}

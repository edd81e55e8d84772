/**
 The lexer the driver reads from, seen only through its interface: each call
 yields a token kind and the matched text. At end of input the lexer reports
 kind 0, and keeps doing so on every further call.
 */
module Lexer {

  datatype TokenKind = IdToken | FixedValToken | IntValToken | OtherToken(code: nat)

  datatype RawToken = RawToken(kind: TokenKind, text: string)

  const EndOfInput: RawToken := RawToken(OtherToken(0), "")

  /** A lexer bound to an input: the tokens it has yet to return */
  datatype Lexer = Lexer(pending: seq<RawToken>)

  datatype Scanned = Scanned(token: RawToken, rest: Lexer)

  /** One call of the lexer */
  function Next(lx: Lexer): (r: Scanned)
    ensures |lx.pending| > 0 ==> r.token == lx.pending[0] && r.rest.pending == lx.pending[1..]
    ensures |lx.pending| == 0 ==> r.token == EndOfInput && r.rest == lx
  {
    if |lx.pending| == 0 then Scanned(EndOfInput, lx)
    else Scanned(lx.pending[0], Lexer(lx.pending[1..]))
  }

  datatype ScannedMany = ScannedMany(tokens: seq<RawToken>, rest: Lexer)

  function Min(a: nat, b: nat): nat {
    if a <= b then a else b
  }

  /** `count` successive calls of the lexer: the input's tokens in order, then
      end of input once the input is exhausted */
  function NextMany(lx: Lexer, count: nat): (r: ScannedMany)
    ensures |r.tokens| == count
    decreases count
  {
    if count == 0 then ScannedMany([], lx)
    else
      var first := Next(lx);
      var more := NextMany(first.rest, count - 1);
      ScannedMany([first.token] + more.tokens, more.rest)
  }

  /** The tokens of successive calls are the input's tokens in order, followed
      by end of input as many times as the input falls short */
  lemma {:induction false} NextManyYieldsInputThenEnd(lx: Lexer, count: nat, i: nat)
    requires i < count
    ensures NextMany(lx, count).tokens[i] == (if i < |lx.pending| then lx.pending[i] else EndOfInput)
    decreases count
  {
    var first := Next(lx);
    var more := NextMany(first.rest, count - 1).tokens;
    var tokens := NextMany(lx, count).tokens;
    assert tokens == [first.token] + more;
    if i > 0 {
      assert tokens[i] == more[i - 1];
      NextManyYieldsInputThenEnd(first.rest, count - 1, i - 1);
      if |lx.pending| > 0 {
        assert i - 1 < |first.rest.pending| <==> i < |lx.pending|;
        assert i < |lx.pending| ==> first.rest.pending[i - 1] == lx.pending[i];
      }
    }
  }

  /** After successive calls the lexer is left just past the consumed input */
  lemma {:induction false} NextManyLeavesRest(lx: Lexer, count: nat)
    ensures NextMany(lx, count).rest.pending == lx.pending[Min(count, |lx.pending|)..]
    decreases count
  {
    if count > 0 {
      var first := Next(lx);
      NextManyLeavesRest(first.rest, count - 1);
    }
  }
}

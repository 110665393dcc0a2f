/**
 * What parsing a fixed parameter list produces, as a function of the tokens
 * consumed and the kinds the grammar expects: each matching position
 * contributes its lexeme, each mismatching position one diagnostic.
 */
module ParseSpec {
  import opened Lexing

  /** A diagnostic: the kind the grammar expected and the kind that was read. */
  datatype Mismatch = Mismatch(expected: TokenTyp, found: TokenTyp)

  /** The text of the diagnostic shown to the user. */
  function Message(m: Mismatch): string
  {
    "expected token : " + KindName(m.expected) + "\nfind token : " + KindName(m.found)
  }

  /** The stored parameter values and the diagnostics reported. */
  datatype Outcome = Outcome(parameters: seq<string>, errors: seq<Mismatch>)

  /**
   * Parsing the consumed tokens toks against the expected kinds typePar,
   * position by position, as the loop does it: the outcome after n positions
   * is the outcome after n - 1 positions extended by position n - 1.
   */
  function Parse(toks: seq<Token>, typePar: seq<TokenTyp>): Outcome
    requires |toks| == |typePar|
    decreases |typePar|
  {
    if |typePar| == 0 then Outcome([], [])
    else
      var n := |typePar| - 1;
      var prev := Parse(toks[..n], typePar[..n]);
      if toks[n].kind == typePar[n] then Outcome(prev.parameters + [toks[n].lexeme], prev.errors)
      else Outcome(prev.parameters, prev.errors + [Mismatch(typePar[n], toks[n].kind)])
  }

  /** The number of positions whose token has the expected kind. */
  function MatchCount(toks: seq<Token>, typePar: seq<TokenTyp>): nat
    requires |toks| == |typePar|
    decreases |typePar|
  {
    if |typePar| == 0 then 0
    else
      var n := |typePar| - 1;
      MatchCount(toks[..n], typePar[..n]) + if toks[n].kind == typePar[n] then 1 else 0
  }

  /** Every consumed token has the kind expected at its position. */
  predicate AllMatch(toks: seq<Token>, typePar: seq<TokenTyp>)
    requires |toks| == |typePar|
  {
    forall i :: 0 <= i < |typePar| ==> toks[i].kind == typePar[i]
  }

  /** The lexemes of the tokens, in order. */
  function Lexemes(toks: seq<Token>): seq<string>
  {
    seq(|toks|, i requires 0 <= i < |toks| => toks[i].lexeme)
  }

  /**
   * One value is stored per matching position and one diagnostic per
   * mismatching one, so together they account for every position.
   */
  lemma {:induction false} ParseLengths(toks: seq<Token>, typePar: seq<TokenTyp>)
    requires |toks| == |typePar|
    ensures |Parse(toks, typePar).parameters| == MatchCount(toks, typePar)
    ensures |Parse(toks, typePar).parameters| + |Parse(toks, typePar).errors| == |typePar|
    decreases |typePar|
  {
    if |typePar| > 0 {
      var n := |typePar| - 1;
      ParseLengths(toks[..n], typePar[..n]);
    }
  }

  /**
   * Where each position ends up: a matching position i stores its lexeme at
   * the index given by the number of matches before it; a mismatching one
   * records the diagnostic naming the expected and the found kind at the
   * index given by the number of mismatches before it. No position is
   * skipped, whatever happened before it.
   */
  lemma {:induction false} ParseAligned(toks: seq<Token>, typePar: seq<TokenTyp>, i: nat)
    requires |toks| == |typePar| && i < |typePar|
    ensures toks[i].kind == typePar[i] ==>
      var k := MatchCount(toks[..i], typePar[..i]);
      k < |Parse(toks, typePar).parameters| && Parse(toks, typePar).parameters[k] == toks[i].lexeme
    ensures toks[i].kind != typePar[i] ==>
      var k := i - MatchCount(toks[..i], typePar[..i]);
      0 <= k < |Parse(toks, typePar).errors| &&
      Parse(toks, typePar).errors[k] == Mismatch(typePar[i], toks[i].kind)
    decreases |typePar|
  {
    var n := |typePar| - 1;
    var prev := Parse(toks[..n], typePar[..n]);
    ParseLengths(toks[..n], typePar[..n]);
    if i < n {
      ParseAligned(toks[..n], typePar[..n], i);
      assert toks[..n][..i] == toks[..i];
      assert typePar[..n][..i] == typePar[..i];
      assert toks[..n][i] == toks[i] && typePar[..n][i] == typePar[i];
    }
  }

  /**
   * The stored values line up with the positions exactly when every token
   * matched: then they are the consumed lexemes in order and no diagnostic
   * was reported; otherwise fewer values than positions are stored.
   */
  lemma {:induction false} ParseAllMatch(toks: seq<Token>, typePar: seq<TokenTyp>)
    requires |toks| == |typePar|
    ensures AllMatch(toks, typePar) ==> Parse(toks, typePar) == Outcome(Lexemes(toks), [])
    ensures AllMatch(toks, typePar) <==> |Parse(toks, typePar).parameters| == |typePar|
    ensures AllMatch(toks, typePar) <==> Parse(toks, typePar).errors == []
    decreases |typePar|
  {
    ParseLengths(toks, typePar);
    if |typePar| > 0 {
      var n := |typePar| - 1;
      ParseAllMatch(toks[..n], typePar[..n]);
      if AllMatch(toks, typePar) {
        assert AllMatch(toks[..n], typePar[..n]) by {
          forall i | 0 <= i < n ensures toks[..n][i].kind == typePar[..n][i] {
            assert toks[..n][i] == toks[i];
          }
        }
        assert Lexemes(toks[..n]) + [toks[n].lexeme] == Lexemes(toks);
      } else {
        var i :| 0 <= i < |typePar| && toks[i].kind != typePar[i];
        ParseAligned(toks, typePar, i);
      }
    }
  }

  /**
   * A mismatch shifts what follows: when only the first token has the wrong
   * kind, the stored values are the lexemes of positions 1, 2, ..., so the
   * value at index j belongs to position j + 1, and one diagnostic is reported.
   */
  lemma {:induction false} ParseFirstMismatchShifts(toks: seq<Token>, typePar: seq<TokenTyp>)
    requires |toks| == |typePar| && |typePar| > 0
    requires toks[0].kind != typePar[0]
    requires forall j :: 1 <= j < |typePar| ==> toks[j].kind == typePar[j]
    ensures Parse(toks, typePar) == Outcome(Lexemes(toks[1..]), [Mismatch(typePar[0], toks[0].kind)])
    decreases |typePar|
  {
    var n := |typePar| - 1;
    if n == 0 {
      assert toks[..n] == [] && typePar[..n] == [];
    } else {
      ParseFirstMismatchShifts(toks[..n], typePar[..n]);
      assert toks[..n][1..] == toks[1..n];
      assert Lexemes(toks[1..n]) + [toks[n].lexeme] == Lexemes(toks[1..]);
    }
  }

  /**
   * The diagnostic shown for a mismatching position names, in this order,
   * the kind the grammar expected there and the kind that was read.
   */
  lemma {:induction false} ParseMessage(toks: seq<Token>, typePar: seq<TokenTyp>, i: nat)
    requires |toks| == |typePar| && i < |typePar| && toks[i].kind != typePar[i]
    ensures var k := i - MatchCount(toks[..i], typePar[..i]);
      0 <= k < |Parse(toks, typePar).errors| &&
      Message(Parse(toks, typePar).errors[k]) ==
        "expected token : " + KindName(typePar[i]) + "\nfind token : " + KindName(toks[i].kind)
  {
    ParseAligned(toks, typePar, i);
  }
}

/**
 * The FUNCTION_VERSION item of the A2L parser: on construction it reads the
 * fixed parameter list its grammar entry prescribes, and afterwards it
 * answers lookups of the stored values by parameter name.
 */
module Items {
  import opened Lexing
  import opened ParseSpec

  /** A grammar entry: parameter names and the token kinds expected for them. */
  datatype ParSpec = ParSpec(namePar: seq<string>, typePar: seq<TokenTyp>)

  /** The part of the A2L grammar table this item reads. */
  datatype Grammar = Grammar(functionVersion: ParSpec)

  /** The first index of s in xs, or -1 when s does not occur. */
  function IndexOf(xs: seq<string>, s: string): (r: int)
    ensures -1 <= r < |xs|
    ensures r == -1 <==> s !in xs
    ensures 0 <= r ==> xs[r] == s && forall j :: 0 <= j < r ==> xs[j] != s
  {
    if |xs| == 0 then -1
    else if xs[0] == s then 0
    else
      var k := IndexOf(xs[1..], s);
      if k == -1 then -1 else k + 1
  }

  /**
   * The map obtained by inserting names[i] |-> params[i] for i = 0, 1, ...,
   * a later insertion under the same name replacing an earlier one.
   */
  function ParameterMap(names: seq<string>, params: seq<string>): map<string, string>
    requires |params| >= |names|
    decreases |names|
  {
    if |names| == 0 then map[]
    else
      var n := |names| - 1;
      ParameterMap(names[..n], params)[names[n] := params[n]]
  }

  /** The keys of the parameter map are exactly the parameter names. */
  lemma {:induction false} ParameterMapKeys(names: seq<string>, params: seq<string>)
    requires |params| >= |names|
    ensures forall k :: k in ParameterMap(names, params) <==> k in names
    decreases |names|
  {
    if |names| > 0 {
      var n := |names| - 1;
      ParameterMapKeys(names[..n], params);
      assert names == names[..n] + [names[n]];
    }
  }

  /** A name is mapped to the value at the last index that carries it. */
  lemma {:induction false} ParameterMapLast(names: seq<string>, params: seq<string>, i: nat)
    requires |params| >= |names| && i < |names|
    requires forall j :: i < j < |names| ==> names[j] != names[i]
    ensures names[i] in ParameterMap(names, params)
    ensures ParameterMap(names, params)[names[i]] == params[i]
    decreases |names|
  {
    var n := |names| - 1;
    if i < n {
      ParameterMapLast(names[..n], params, i);
    }
  }

  /**
   * With as many names as expected kinds, some diagnostic was shown exactly
   * when fewer values than names were stored, that is, exactly when the
   * full parameter map cannot be built.
   */
  lemma MismatchShortensParameters(toks: seq<Token>, typePar: seq<TokenTyp>, names: seq<string>)
    requires |toks| == |typePar| == |names|
    ensures Parse(toks, typePar).errors != [] <==> |Parse(toks, typePar).parameters| < |names|
  {
    ParseLengths(toks, typePar);
    ParseAllMatch(toks, typePar);
  }

  class FunctionVersion {
    /** The lexer of the parent node, shared with the rest of the parser. */
    const lex: Lexer
    /** The parameter names of the grammar entry. */
    const namePar: seq<string>
    /** The token kinds the grammar entry expects, position by position. */
    const typePar: seq<TokenTyp>
    /** The lexemes stored for the positions that matched. */
    var parameters: seq<string>
    /** The diagnostics shown while parsing, in order. */
    var errors: seq<Mismatch>
    /** The item's name. */
    var name: string

    /**
     * Takes the parameter lists from the grammar's function_version entry,
     * parses that many tokens with them, then names the item.
     */
    constructor (lex: Lexer, gram: Grammar)
      requires |gram.functionVersion.namePar| == |gram.functionVersion.typePar|
      modifies lex
      ensures this.lex == lex
      ensures namePar == gram.functionVersion.namePar && typePar == gram.functionVersion.typePar
      ensures lex.pos == old(lex.pos) + |typePar|
      ensures |typePar| > 0 ==> lex.lexem == TokenAt(lex.tokens, lex.pos - 1).lexeme
      ensures |typePar| == 0 ==> lex.lexem == old(lex.lexem)
      ensures Outcome(parameters, errors) == Parse(Window(lex.tokens, old(lex.pos), |typePar|), typePar)
      ensures errors != [] <==> |parameters| < |namePar|
      ensures name == "FUNCTION_VERSION"
    {
      this.lex := lex;
      namePar := gram.functionVersion.namePar;
      typePar := gram.functionVersion.typePar;
      parameters := [];
      errors := [];
      name := "";
      new;
      ParseFixPar(typePar);
      MismatchShortensParameters(Window(lex.tokens, old(lex.pos), |typePar|), typePar, namePar);
      name := "FUNCTION_VERSION";
    }

    /**
     * Reads one token per expected kind: a token of the expected kind has
     * its lexeme appended to the parameters, any other token a diagnostic
     * appended to the errors, and reading goes on either way.
     */
    method ParseFixPar(typePar: seq<TokenTyp>)
      modifies this, lex
      ensures lex.pos == old(lex.pos) + |typePar|
      ensures |typePar| > 0 ==> lex.lexem == TokenAt(lex.tokens, lex.pos - 1).lexeme
      ensures |typePar| == 0 ==> lex.lexem == old(lex.lexem)
      ensures var out := Parse(Window(lex.tokens, old(lex.pos), |typePar|), typePar);
        parameters == old(parameters) + out.parameters && errors == old(errors) + out.errors
      ensures name == old(name)
    {
      ghost var start := lex.pos;
      for i := 0 to |typePar|
        invariant lex.pos == start + i
        invariant i > 0 ==> lex.lexem == TokenAt(lex.tokens, lex.pos - 1).lexeme
        invariant i == 0 ==> lex.lexem == old(lex.lexem)
        invariant var out := Parse(Window(lex.tokens, start, i), typePar[..i]);
          parameters == old(parameters) + out.parameters && errors == old(errors) + out.errors
        invariant name == old(name)
      {
        ghost var before := Window(lex.tokens, start, i);
        var token := lex.NextToken();
        ghost var after := Window(lex.tokens, start, i + 1);
        assert after[..i] == before;
        assert typePar[..i + 1][..i] == typePar[..i];
        if token == typePar[i] {
          parameters := parameters + [lex.lexem];
        } else {
          errors := errors + [Mismatch(typePar[i], token)];
        }
      }
      assert typePar[..|typePar|] == typePar;
    }

    /**
     * The map from each parameter name to its stored value; a name that
     * occurs twice gets the value of its last occurrence.
     */
    method GetParameters() returns (par: map<string, string>)
      requires |parameters| >= |namePar|
      ensures par == ParameterMap(namePar, parameters)
      ensures forall k :: k in par <==> k in namePar
      ensures forall i :: 0 <= i < |namePar| && (forall j :: i < j < |namePar| ==> namePar[j] != namePar[i]) ==>
        namePar[i] in par && par[namePar[i]] == parameters[i]
    {
      par := map[];
      for i := 0 to |namePar|
        invariant par == ParameterMap(namePar[..i], parameters)
      {
        assert namePar[..i + 1][..i] == namePar[..i];
        par := par[namePar[i] := parameters[i]];
      }
      assert namePar[..|namePar|] == namePar;
      ParameterMapKeys(namePar, parameters);
      forall i | 0 <= i < |namePar| && (forall j :: i < j < |namePar| ==> namePar[j] != namePar[i])
        ensures namePar[i] in par && par[namePar[i]] == parameters[i]
      {
        ParameterMapLast(namePar, parameters, i);
      }
    }

    /** The value stored at the first index of str among the parameter names. */
    function GetPar(str: string): (r: string)
      reads this
      requires 0 <= IndexOf(namePar, str) < |parameters|
      ensures exists i ::
                0 <= i < |namePar| && i < |parameters| && namePar[i] == str &&
                (forall j :: 0 <= j < i ==> namePar[j] != str) && r == parameters[i]
    {
      var i := IndexOf(namePar, str);
      assert namePar[i] == str;
      parameters[i]
    }
  }

  /**
   * With distinct parameter names, looking one up gives the same value as
   * the full parameter map does.
   */
  lemma GetParAgreesWithMap(item: FunctionVersion, str: string)
    requires |item.parameters| >= |item.namePar|
    requires forall i, j :: 0 <= i < j < |item.namePar| ==> item.namePar[i] != item.namePar[j]
    requires str in item.namePar
    ensures str in ParameterMap(item.namePar, item.parameters)
    ensures item.GetPar(str) == ParameterMap(item.namePar, item.parameters)[str]
  {
    var i := IndexOf(item.namePar, str);
    ParameterMapLast(item.namePar, item.parameters, i);
  }

  /**
   * The FUNCTION_VERSION item read from a single well-formed string token:
   * the value is found by name and in the parameter map.
   */
  method ExampleWellFormed()
  {
    var lex := new Lexer([Token(String, "V1.0"), Token(Identifier, "next")]);
    var item := new FunctionVersion(lex, Grammar(ParSpec(["VERSION_IDENTIFIER"], [String])));
    assert Window(lex.tokens, 0, 1) == [Token(String, "V1.0")];
    assert item.parameters == ["V1.0"] && item.errors == [];
    assert lex.pos == 1;
    var par := item.GetParameters();
    assert par == map["VERSION_IDENTIFIER" := "V1.0"];
    assert item.GetPar("VERSION_IDENTIFIER") == "V1.0";
  }

  /**
   * A wrong first token: one diagnostic is shown, both tokens are consumed,
   * and the first name now reads the second position's value.
   */
  method ExampleMismatchShifts()
  {
    var lex := new Lexer([Token(Integer, "7"), Token(Identifier, "b")]);
    var item := new FunctionVersion(lex, Grammar(ParSpec(["A", "B"], [String, Identifier])));
    assert Window(lex.tokens, 0, 2) == [Token(Integer, "7"), Token(Identifier, "b")];
    ParseFirstMismatchShifts(Window(lex.tokens, 0, 2), [String, Identifier]);
    assert item.parameters == ["b"];
    assert item.errors == [Mismatch(String, Integer)];
    assert lex.pos == 2;
    assert item.GetPar("A") == "b";
  }
}

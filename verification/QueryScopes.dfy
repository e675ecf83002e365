/** Scope peeling: tokens whose prefix the caller claims leave the rule tree unparsed, in order;
    the rest are parsed. How one token becomes rule nodes is a parameter. */
module QueryScopes {
  import opened Text
  import opened Wrappers
  import opened Tokenizer
  import opened TokenizerRoundTrip

  datatype ScopeToken = ScopeToken(negated: bool, value: string)

  datatype GroupOperator = All | Any

  datatype Rule<Node> = Rule(operator: GroupOperator, negated: bool, nodes: seq<Node>)

  predicate IsScope(prefix: Option<string>, scopes: seq<string>) {
    prefix.Some? && exists i :: 0 <= i < |scopes| && Lower(scopes[i]) == Lower(prefix.value)
  }

  function Scopes(ts: seq<Token>, scopes: seq<string>): seq<ScopeToken> {
    if ts == [] then []
    else
      var t := ts[|ts| - 1];
      var before := Scopes(ts[..|ts| - 1], scopes);
      if IsScope(t.prefix, scopes) then before + [ScopeToken(t.negated, t.value)] else before
  }

  function RuleTokens(ts: seq<Token>, scopes: seq<string>): seq<Token> {
    if ts == [] then []
    else
      var t := ts[|ts| - 1];
      var before := RuleTokens(ts[..|ts| - 1], scopes);
      if IsScope(t.prefix, scopes) then before else before + [t]
  }

  /** The concatenated nodes of a token list, or the first token's error. */
  function Nodes<Node>(ts: seq<Token>, parse: Token -> Result<seq<Node>, string>): Result<seq<Node>, string> {
    if ts == [] then Ok([])
    else
      match Nodes(ts[..|ts| - 1], parse)
      case Err(e) => Err(e)
      case Ok(nodes) =>
        match parse(ts[|ts| - 1])
        case Err(e) => Err(e)
        case Ok(more) => Ok(nodes + more)
  }

  function RuleOf<Node>(nodes: seq<Node>): Option<Rule<Node>> {
    if nodes == [] then None else Some(Rule(All, false, nodes))
  }

  method ParseQueryWithScopes<Node(==)>(query: string, scopes: seq<string>, parse: Token -> Result<seq<Node>, string>)
    returns (r: Result<(Option<Rule<Node>>, seq<ScopeToken>), string>)
    ensures var nodes := Nodes(RuleTokens(Tokens(query), scopes), parse);
      && (r.Ok? <==> nodes.Ok?)
      && (r.Ok? ==> r.value.1 == Scopes(Tokens(query), scopes))
      && (r.Ok? ==> r.value.0 == if nodes.value == [] then None else Some(Rule(All, false, nodes.value)))
      && (r.Err? ==> r.error == nodes.error)
  {
    hide Tokens, IsScope;
    var tokens := Tokenize(query);
    var nodes: seq<Node> := [];
    var peeled: seq<ScopeToken> := [];
    for i := 0 to |tokens|
      invariant peeled == Scopes(tokens[..i], scopes)
      invariant Nodes(RuleTokens(tokens[..i], scopes), parse) == Ok(nodes)
    {
      var token := tokens[i];
      assert tokens[..i + 1][..i] == tokens[..i];
      if IsScope(token.prefix, scopes) {
        peeled := peeled + [ScopeToken(token.negated, token.value)];
        continue;
      }
      NodesAppend(RuleTokens(tokens[..i], scopes), token, parse);
      match parse(token)
      case Err(e) =>
        FirstErrorStands(tokens, i + 1, scopes, parse);
        return Err(e);
      case Ok(more) =>
        nodes := nodes + more;
    }
    assert tokens[..|tokens|] == tokens;
    r := Ok((RuleOf(nodes), peeled));
  }

  /** `parse_query`: no scopes, and the empty rule when there is nothing to say. */
  method ParseQuery<Node(==)>(query: string, parse: Token -> Result<seq<Node>, string>)
    returns (r: Result<Rule<Node>, string>)
    ensures var nodes := Nodes(Tokens(query), parse);
      && (r.Ok? <==> nodes.Ok?)
      && (r.Ok? ==> r.value == Rule(All, false, nodes.value))
      && (r.Err? ==> r.error == nodes.error)
  {
    var parsed := ParseQueryWithScopes(query, [], parse);
    NoScopesNoPeeling(Tokens(query));
    match parsed
    case Err(e) => r := Err(e);
    case Ok(pair) => r := Ok(if pair.0.Some? then pair.0.value else Rule(All, false, []));
  }

  lemma NodesAppend<Node>(ts: seq<Token>, t: Token, parse: Token -> Result<seq<Node>, string>)
    requires Nodes(ts, parse).Ok?
    ensures parse(t).Ok? ==> Nodes(ts + [t], parse) == Ok(Nodes(ts, parse).value + parse(t).value)
    ensures parse(t).Err? ==> Nodes(ts + [t], parse) == Err(parse(t).error)
  {
    assert (ts + [t])[..|ts|] == ts;
  }

  lemma {:induction false} FirstErrorStands<Node>(ts: seq<Token>, i: nat, scopes: seq<string>,
                                                  parse: Token -> Result<seq<Node>, string>)
    requires i <= |ts| && Nodes(RuleTokens(ts[..i], scopes), parse).Err?
    ensures Nodes(RuleTokens(ts, scopes), parse) == Nodes(RuleTokens(ts[..i], scopes), parse)
  {
    if i == |ts| {
      assert ts[..i] == ts;
    } else {
      var n := |ts| - 1;
      assert ts[..n][..i] == ts[..i];
      FirstErrorStands(ts[..n], i, scopes, parse);
      var rule := RuleTokens(ts[..n], scopes);
      assert (rule + [ts[n]])[..|rule|] == rule;
    }
  }

  lemma {:induction false} NoScopesNoPeeling(ts: seq<Token>)
    ensures RuleTokens(ts, []) == ts && Scopes(ts, []) == []
  {
    if ts != [] {
      NoScopesNoPeeling(ts[..|ts| - 1]);
    }
  }

  /** `eq_ignore_ascii_case`: one character after the other is the same or the same letter in the other case. */
  predicate SameIgnoringCase(a: string, b: string) {
    |a| == |b| && forall i :: 0 <= i < |a| ==>
      || a[i] == b[i]
      || ('A' <= a[i] <= 'Z' && a[i] as int + 32 == b[i] as int)
      || ('A' <= b[i] <= 'Z' && b[i] as int + 32 == a[i] as int)
  }

  lemma LowerIsSame(a: string, b: string)
    ensures Lower(a) == Lower(b) <==> SameIgnoringCase(a, b)
  {
    var x, y := Lower(a), Lower(b);
    if x == y {
      forall i | 0 <= i < |a| ensures
        || a[i] == b[i]
        || ('A' <= a[i] <= 'Z' && a[i] as int + 32 == b[i] as int)
        || ('A' <= b[i] <= 'Z' && b[i] as int + 32 == a[i] as int) {
        assert x[i] == y[i];
      }
    }
  }

  lemma ScopeIff(prefix: Option<string>, scopes: seq<string>)
    ensures IsScope(prefix, scopes) <==> prefix.Some? && exists j :: 0 <= j < |scopes| && SameIgnoringCase(scopes[j], prefix.value)
  {
    hide Lower, SameIgnoringCase;
    if prefix.Some? {
      forall j | 0 <= j < |scopes| ensures Lower(scopes[j]) == Lower(prefix.value) <==> SameIgnoringCase(scopes[j], prefix.value) {
        LowerIsSame(scopes[j], prefix.value);
      }
    }
  }

  /** Peeling is an ordered split: each token lands on the side its prefix says, at the place the
      tokens of that side before it leave free, and nothing else is on either side. */
  lemma {:induction false} PeelingSplitsInOrder(ts: seq<Token>, scopes: seq<string>, i: nat)
    requires i < |ts|
    ensures |Scopes(ts, scopes)| + |RuleTokens(ts, scopes)| == |ts|
    ensures var n := |Scopes(ts[..i], scopes)|;
      if ts[i].prefix.Some? && exists j :: 0 <= j < |scopes| && SameIgnoringCase(scopes[j], ts[i].prefix.value)
      then n < |Scopes(ts, scopes)| && Scopes(ts, scopes)[n] == ScopeToken(ts[i].negated, ts[i].value)
      else n <= i && i - n < |RuleTokens(ts, scopes)| && RuleTokens(ts, scopes)[i - n] == ts[i]
  {
    ScopeIff(ts[i].prefix, scopes);
    SplitLengths(ts, scopes);
    SplitLengths(ts[..|ts| - 1], scopes);
    SplitLengths(ts[..i], scopes);
    if i < |ts| - 1 {
      assert ts[..|ts| - 1][..i] == ts[..i];
      PeelingSplitsInOrder(ts[..|ts| - 1], scopes, i);
    }
  }

  lemma {:induction false} SplitLengths(ts: seq<Token>, scopes: seq<string>)
    ensures |Scopes(ts, scopes)| + |RuleTokens(ts, scopes)| == |ts|
  {
    if ts != [] {
      SplitLengths(ts[..|ts| - 1], scopes);
    }
  }

  /** One rule token yields what it parses to, and none yields nothing. */
  lemma NodesOfOne<Node>(t: Token, parse: Token -> Result<seq<Node>, string>)
    ensures Nodes([], parse) == Ok([])
    ensures Nodes([t], parse) == parse(t)
  {
    assert [t][..0] == [];
    if parse(t).Ok? {
      assert [] + parse(t).value == parse(t).value;
    }
  }

  /** The rule nodes are the concatenation of what the rule tokens parse to, and a failing parse
      reports the first rule token that failed. */
  lemma {:induction false} NodesConcatenate<Node>(ts: seq<Token>, us: seq<Token>, parse: Token -> Result<seq<Node>, string>)
    ensures Nodes(ts + us, parse) ==
      match Nodes(ts, parse)
      case Err(e) => Err(e)
      case Ok(a) =>
        match Nodes(us, parse)
        case Err(e) => Err(e)
        case Ok(b) => Ok(a + b)
  {
    if us == [] {
      assert ts + us == ts;
      match Nodes(ts, parse)
      case Ok(a) => assert a + [] == a;
      case Err(_) =>
    } else {
      var n := |us| - 1;
      NodesConcatenate(ts, us[..n], parse);
      assert (ts + us)[..|ts + us| - 1] == ts + us[..n];
      if Nodes(ts, parse).Ok? && Nodes(us[..n], parse).Ok? && parse(us[n]).Ok? {
        var a, b, c := Nodes(ts, parse).value, Nodes(us[..n], parse).value, parse(us[n]).value;
        assert (a + b) + c == a + (b + c);
      }
    }
  }

  /** The one-pass peel agrees with re-tokenizing a printed remainder: if the rule tokens can be
      printed at all, parsing their print gives the same nodes or the same error. */
  lemma PeelingAgreesWithRemainder<Node>(query: string, scopes: seq<string>, parse: Token -> Result<seq<Node>, string>)
    requires forall t :: t in RuleTokens(Tokens(query), scopes) ==> Printable(t)
    ensures var rule := RuleTokens(Tokens(query), scopes);
      Nodes(RuleTokens(Tokens(Print(rule)), []), parse) == Nodes(rule, parse)
  {
    var rule := RuleTokens(Tokens(query), scopes);
    RoundTripIff(rule);
    NoScopesNoPeeling(rule);
  }
}

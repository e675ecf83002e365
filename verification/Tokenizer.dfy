/** The search-query tokenizer: index loops with look-ahead over a character array. */
module Tokenizer {
  import opened Text
  import opened Wrappers

  datatype Token = Token(negated: bool, prefix: Option<string>, value: string)

  const SPACED_PREFIXES: seq<string> := [
    "f", "from", "sender", "subject", "s", "body", "preview", "tag", "keyword", "in", "mailbox", "source", "account"]

  const OTHER_PREFIXES: seq<string> := [
    "is", "has", "id", "thread", "threadid", "conversation", "conversationid", "conv",
    "before", "after", "date", "newer", "older"]

  predicate Listed(prefix: string, table: seq<string>) {
    table != [] && (prefix == table[0] || Listed(prefix, table[1..]))
  }

  /** `prefix_accepts_spaced_value` */
  predicate TakesSpaces(prefix: string) {
    Listed(prefix, SPACED_PREFIXES)
  }

  /** `is_known_prefix` */
  predicate Known(prefix: string) {
    TakesSpaces(prefix) || Listed(prefix, OTHER_PREFIXES)
  }

  // ---------------------------------------------------------------------------------------
  // Specification: every loop is a seek to the first character of some kind
  // ---------------------------------------------------------------------------------------

  datatype Stop = AtSpace | AtNonSpace | AtQuote | AtColonOrSpace

  predicate Stops(stop: Stop, c: char) {
    match stop
    case AtSpace => IsSpace(c)
    case AtNonSpace => !IsSpace(c)
    case AtQuote => c == '"'
    case AtColonOrSpace => c == ':' || IsSpace(c)
  }

  function Seek(chars: string, i: nat, stop: Stop): (r: nat)
    requires i <= |chars|
    ensures i <= r <= |chars|
    ensures forall k :: i <= k < r ==> !Stops(stop, chars[k])
    ensures r < |chars| ==> Stops(stop, chars[r])
    decreases |chars| - i
  {
    if i == |chars| || Stops(stop, chars[i]) then i else Seek(chars, i + 1, stop)
  }

  lemma SeekUnique(chars: string, i: nat, stop: Stop, r: nat)
    requires i <= r <= |chars|
    requires forall k :: i <= k < r ==> !Stops(stop, chars[k])
    requires r < |chars| ==> Stops(stop, chars[r])
    ensures Seek(chars, i, stop) == r
  {
  }

  /** `scan_value`: the value and the position after it. */
  function ScanValue(chars: string, pos: nat): (r: (string, nat))
    requires pos <= |chars|
    ensures pos <= r.1 <= |chars|
  {
    if pos < |chars| && chars[pos] == '"' then
      var end := Seek(chars, pos + 1, AtQuote);
      (chars[pos + 1..end], if end < |chars| then end + 1 else end)
    else
      var end := Seek(chars, pos, AtSpace);
      (chars[pos..end], end)
  }

  /** An optional `-` and a known prefix up to its colon, at `i`. */
  predicate PrefixAt(chars: string, i: nat)
    requires i <= |chars|
  {
    var start := if i < |chars| && chars[i] == '-' then i + 1 else i;
    var end := Seek(chars, start, AtColonOrSpace);
    end < |chars| && chars[end] == ':' && Known(Lower(chars[start..end]))
  }

  predicate NextPrefixAt(chars: string, i: nat)
    requires i <= |chars|
  {
    i < |chars| && IsSpace(chars[i]) && PrefixAt(chars, Seek(chars, i, AtNonSpace))
  }

  function SpacedEnd(chars: string, i: nat): (r: nat)
    requires i <= |chars|
    ensures i <= r <= |chars|
    ensures forall k :: i <= k < r ==> !NextPrefixAt(chars, k)
    ensures r < |chars| ==> NextPrefixAt(chars, r)
    decreases |chars| - i
  {
    if i == |chars| || NextPrefixAt(chars, i) then i else SpacedEnd(chars, i + 1)
  }

  function ScanPrefixedValue(chars: string, pos: nat, prefix: string): (r: (string, nat))
    requires pos <= |chars|
    ensures pos <= r.1 <= |chars|
  {
    var p := Seek(chars, pos, AtNonSpace);
    if !TakesSpaces(Lower(prefix)) || (p < |chars| && chars[p] == '"') then ScanValue(chars, p)
    else if PrefixAt(chars, p) then ("", p)
    else
      var end := SpacedEnd(chars, p);
      (Trim(chars[p..end]), end)
  }

  predicate NegatedAt(chars: string, i: nat)
    requires i < |chars|
  {
    chars[i] == '-' && i + 1 < |chars| && !IsSpace(chars[i + 1])
  }

  function NextToken(chars: string, i: nat): (r: (Token, nat))
    requires i < |chars| && !IsSpace(chars[i])
    ensures i < r.1 <= |chars|
  {
    var negated := NegatedAt(chars, i);
    var start := if negated then i + 1 else i;
    var c := Seek(chars, start, AtColonOrSpace);
    if c < |chars| && chars[c] == ':' then
      var (value, next) := ScanPrefixedValue(chars, c + 1, chars[start..c]);
      (Token(negated, Some(chars[start..c]), value), next)
    else
      var (value, next) := ScanValue(chars, start);
      (Token(negated, None, value), next)
  }

  function TokensFrom(chars: string, i: nat): seq<Token>
    requires i <= |chars|
    decreases |chars| - i
  {
    var p := Seek(chars, i, AtNonSpace);
    if p == |chars| then []
    else
      var (token, next) := NextToken(chars, p);
      [token] + TokensFrom(chars, next)
  }

  function Tokens(input: string): seq<Token> {
    TokensFrom(input, 0)
  }

  // ---------------------------------------------------------------------------------------
  // The loops
  // ---------------------------------------------------------------------------------------

  method ScanValueAt(chars: string, pos: nat) returns (value: string, next: nat)
    requires pos <= |chars|
    ensures (value, next) == ScanValue(chars, pos)
    ensures pos < |chars| && chars[pos] == '"' ==>
      var end := Seek(chars, pos + 1, AtQuote);
      value == chars[pos + 1..end] && next == if end < |chars| then end + 1 else end
    ensures !(pos < |chars| && chars[pos] == '"') ==> next == Seek(chars, pos, AtSpace) && value == chars[pos..next]
  {
    next := pos;
    if next < |chars| && chars[next] == '"' {
      next := next + 1;
      var start := next;
      while next < |chars| && chars[next] != '"'
        invariant start <= next <= |chars|
        invariant Seek(chars, start, AtQuote) == Seek(chars, next, AtQuote)
      {
        next := next + 1;
      }
      value := chars[start..next];
      if next < |chars| {
        next := next + 1;
      }
    } else {
      var start := next;
      while next < |chars| && !IsSpace(chars[next])
        invariant start <= next <= |chars|
        invariant Seek(chars, start, AtSpace) == Seek(chars, next, AtSpace)
      {
        next := next + 1;
      }
      value := chars[start..next];
    }
  }

  function AfterMinus(chars: string, i: nat): (r: nat)
    requires i <= |chars|
    ensures r <= |chars|
  {
    if i < |chars| && chars[i] == '-' then i + 1 else i
  }

  /** A known prefix, in any case, with its colon at `end`. */
  ghost predicate KnownPrefixSpan(chars: string, start: nat, end: int) {
    && start <= end < |chars| && chars[end] == ':'
    && (forall k :: start <= k < end ==> chars[k] != ':' && !IsSpace(chars[k]))
    && Known(Lower(chars[start..end]))
  }

  lemma KnownPrefixSpanIff(chars: string, start: nat)
    requires start <= |chars|
    ensures var end := Seek(chars, start, AtColonOrSpace);
      (end < |chars| && chars[end] == ':' && Known(Lower(chars[start..end]))) <==> exists e :: KnownPrefixSpan(chars, start, e)
  {
    hide Known, Lower, IsSpace;
    var end := Seek(chars, start, AtColonOrSpace);
    if end < |chars| && chars[end] == ':' && Known(Lower(chars[start..end])) {
      assert KnownPrefixSpan(chars, start, end);
    }
    if e :| KnownPrefixSpan(chars, start, e) {
      SeekUnique(chars, start, AtColonOrSpace, e);
    }
  }

  lemma NextPrefixIff(chars: string, pos: nat)
    requires pos <= |chars|
    ensures NextPrefixAt(chars, pos) <==>
      exists i, end ::
        && pos < i <= |chars| && (forall k :: pos <= k < i ==> IsSpace(chars[k])) && (i < |chars| ==> !IsSpace(chars[i]))
        && KnownPrefixSpan(chars, AfterMinus(chars, i), end)
  {
    hide Known, Lower, IsSpace;
    if NextPrefixAt(chars, pos) {
      var i := Seek(chars, pos, AtNonSpace);
      KnownPrefixSpanIff(chars, AfterMinus(chars, i));
      assert pos < i;
    }
    if i, end :|
      && pos < i <= |chars| && (forall k :: pos <= k < i ==> IsSpace(chars[k])) && (i < |chars| ==> !IsSpace(chars[i]))
      && KnownPrefixSpan(chars, AfterMinus(chars, i), end)
    {
      SeekUnique(chars, pos, AtNonSpace, i);
      KnownPrefixSpanIff(chars, AfterMinus(chars, i));
    }
  }

  /** The loop `starts_prefix_token` and `starts_next_prefix` share, after the optional minus. */
  method KnownPrefixFrom(chars: string, start: nat) returns (known: bool)
    requires start <= |chars|
    ensures known <==>
      var end := Seek(chars, start, AtColonOrSpace);
      end < |chars| && chars[end] == ':' && Known(Lower(chars[start..end]))
  {
    var i := start;
    while i < |chars| && !IsSpace(chars[i])
      invariant start <= i <= |chars|
      invariant Seek(chars, start, AtColonOrSpace) == Seek(chars, i, AtColonOrSpace)
    {
      if chars[i] == ':' {
        return Known(Lower(chars[start..i]));
      }
      i := i + 1;
    }
    known := false;
  }

  method StartsPrefixToken(chars: string, pos: nat) returns (starts: bool)
    requires pos <= |chars|
    ensures starts <==> PrefixAt(chars, pos)
    ensures starts <==> exists end :: KnownPrefixSpan(chars, AfterMinus(chars, pos), end)
  {
    KnownPrefixSpanIff(chars, AfterMinus(chars, pos));
    if pos >= |chars| {
      return false;
    }
    var i := pos;
    if chars[i] == '-' {
      i := i + 1;
    }
    starts := KnownPrefixFrom(chars, i);
  }

  method StartsNextPrefix(chars: string, pos: nat) returns (starts: bool)
    requires pos <= |chars|
    ensures starts <==> NextPrefixAt(chars, pos)
    ensures starts <==>
      exists i, end ::
        && pos < i <= |chars| && (forall k :: pos <= k < i ==> IsSpace(chars[k])) && (i < |chars| ==> !IsSpace(chars[i]))
        && KnownPrefixSpan(chars, AfterMinus(chars, i), end)
  {
    NextPrefixIff(chars, pos);
    if pos >= |chars| || !IsSpace(chars[pos]) {
      return false;
    }
    var i := pos;
    while i < |chars| && IsSpace(chars[i])
      invariant pos <= i <= |chars|
      invariant Seek(chars, pos, AtNonSpace) == Seek(chars, i, AtNonSpace)
    {
      i := i + 1;
    }
    if i < |chars| && chars[i] == '-' {
      i := i + 1;
    }
    starts := KnownPrefixFrom(chars, i);
  }

  method ScanPrefixedValueAt(chars: string, pos: nat, prefix: string) returns (value: string, next: nat)
    requires pos <= |chars|
    ensures (value, next) == ScanPrefixedValue(chars, pos, prefix)
    ensures var p := Seek(chars, pos, AtNonSpace);
      if p < |chars| && chars[p] == '"' then
        var end := Seek(chars, p + 1, AtQuote);
        value == chars[p + 1..end] && next == if end < |chars| then end + 1 else end
      else if !TakesSpaces(Lower(prefix)) then
        next == Seek(chars, p, AtSpace) && value == chars[p..next]
      else if PrefixAt(chars, p) then
        value == "" && next == p
      else
        && p <= next <= |chars| && value == Trim(chars[p..next])
        && (forall k :: p <= k < next ==> !NextPrefixAt(chars, k)) && (next < |chars| ==> NextPrefixAt(chars, next))
  {
    next := pos;
    while next < |chars| && IsSpace(chars[next])
      invariant pos <= next <= |chars|
      invariant Seek(chars, pos, AtNonSpace) == Seek(chars, next, AtNonSpace)
    {
      next := next + 1;
    }
    if !TakesSpaces(Lower(prefix)) {
      value, next := ScanValueAt(chars, next);
      return;
    }
    if next < |chars| && chars[next] == '"' {
      value, next := ScanValueAt(chars, next);
      return;
    }
    var start := next;
    var empty := StartsPrefixToken(chars, start);
    if empty {
      return "", next;
    }
    while next < |chars|
      invariant start <= next <= |chars|
      invariant SpacedEnd(chars, start) == SpacedEnd(chars, next)
    {
      var stop := StartsNextPrefix(chars, next);
      if stop {
        break;
      }
      next := next + 1;
    }
    value := Trim(chars[start..next]);
  }

  /** The scan for a prefix: the first colon of the word at `start`, if it has one. */
  method FindColon(chars: string, start: nat) returns (colon: Option<nat>)
    requires start <= |chars|
    ensures var c := Seek(chars, start, AtColonOrSpace);
      colon == if c < |chars| && chars[c] == ':' then Some(c) else None
  {
    var i := start;
    while i < |chars| && !IsSpace(chars[i])
      invariant start <= i <= |chars|
      invariant Seek(chars, start, AtColonOrSpace) == Seek(chars, i, AtColonOrSpace)
    {
      if chars[i] == ':' {
        return Some(i);
      }
      i := i + 1;
    }
    colon := None;
  }

  /** One round of the main loop, from the first character of a token. */
  method ScanToken(chars: string, at: nat) returns (token: Token, next: nat)
    requires at < |chars| && !IsSpace(chars[at])
    ensures (token, next) == NextToken(chars, at)
    ensures token.negated <==> chars[at] == '-' && at + 1 < |chars| && !IsSpace(chars[at + 1])
    ensures var start := if token.negated then at + 1 else at;
      var c := Seek(chars, start, AtColonOrSpace);
      if c < |chars| && chars[c] == ':'
      then token.prefix == Some(chars[start..c]) && (token.value, next) == ScanPrefixedValue(chars, c + 1, chars[start..c])
      else token.prefix == None && (token.value, next) == ScanValue(chars, start)
  {
    hide Seek, ScanValue, ScanPrefixedValue;
    var negated := chars[at] == '-' && at + 1 < |chars| && !IsSpace(chars[at + 1]);
    var start := if negated then at + 1 else at;
    var colon := FindColon(chars, start);
    var value: string;
    if colon.Some? {
      var prefix := chars[start..colon.value];
      value, next := ScanPrefixedValueAt(chars, colon.value + 1, prefix);
      token := Token(negated, Some(prefix), value);
    } else {
      value, next := ScanValueAt(chars, start);
      token := Token(negated, None, value);
    }
  }

  method Tokenize(chars: string) returns (tokens: seq<Token>)
    ensures tokens == Tokens(chars)
  {
    tokens := [];
    var i := 0;
    while i < |chars|
      invariant i <= |chars|
      invariant tokens + TokensFrom(chars, i) == Tokens(chars)
    {
      if IsSpace(chars[i]) {
        assert TokensFrom(chars, i) == TokensFrom(chars, i + 1);
        i := i + 1;
        continue;
      }
      var token, next := ScanToken(chars, i);
      assert TokensFrom(chars, i) == [token] + TokensFrom(chars, next);
      tokens := tokens + [token];
      i := next;
    }
  }

  ghost predicate White(chars: string, a: nat, b: nat)
    requires a <= b <= |chars|
  {
    forall k :: a <= k < b ==> IsSpace(chars[k])
  }

  // Tokens read one after another: each where the white space after the one before it ends.
  ghost predicate Laid(chars: string, from: nat, tokens: seq<Token>, starts: seq<nat>)
    decreases |tokens|
  {
    && from <= |chars| && |starts| == |tokens|
    && if tokens == [] then White(chars, from, |chars|)
       else
         && from <= starts[0] < |chars| && White(chars, from, starts[0]) && !IsSpace(chars[starts[0]])
         && NextToken(chars, starts[0]).0 == tokens[0]
         && Laid(chars, NextToken(chars, starts[0]).1, tokens[1..], starts[1..])
  }

  /** The tokens cover the text: nothing but white space lies before, between and after them. */
  lemma {:induction false} TokensCover(chars: string, from: nat) returns (starts: seq<nat>)
    requires from <= |chars|
    ensures Laid(chars, from, TokensFrom(chars, from), starts)
    decreases |chars| - from
  {
    hide NextToken, IsSpace;
    var p := Seek(chars, from, AtNonSpace);
    if p == |chars| {
      starts := [];
    } else {
      var rest := TokensCover(chars, NextToken(chars, p).1);
      starts := [p] + rest;
      assert TokensFrom(chars, from)[1..] == TokensFrom(chars, NextToken(chars, p).1) && starts[1..] == rest;
    }
  }

  /** A token with a colon, once its sign and colon are known. */
  lemma NextPrefixed(chars: string, i: nat, start: nat, c: nat)
    requires i < |chars| && !IsSpace(chars[i])
    requires start == if NegatedAt(chars, i) then i + 1 else i
    requires Seek(chars, start, AtColonOrSpace) == c && c < |chars| && chars[c] == ':'
    ensures var prefix := chars[start..c];
      var (value, next) := ScanPrefixedValue(chars, c + 1, prefix);
      NextToken(chars, i) == (Token(NegatedAt(chars, i), Some(prefix), value), next)
  {
    hide Seek, ScanPrefixedValue, ScanValue;
  }

  /** A token without one. */
  lemma NextFree(chars: string, i: nat, start: nat)
    requires i < |chars| && !IsSpace(chars[i])
    requires start == if NegatedAt(chars, i) then i + 1 else i
    requires var c := Seek(chars, start, AtColonOrSpace); c == |chars| || chars[c] != ':'
    ensures var (value, next) := ScanValue(chars, start);
      NextToken(chars, i) == (Token(NegatedAt(chars, i), None, value), next)
  {
    hide Seek, ScanPrefixedValue, ScanValue;
  }

  // ---------------------------------------------------------------------------------------
  // An unquoted spaced value
  // ---------------------------------------------------------------------------------------

  lemma SeekInSlice(chars: string, a: nat, b: nat, i: nat, stop: Stop)
    requires a <= b <= |chars| && i <= b - a
    requires Seek(chars[a..b], i, stop) < b - a
    ensures Seek(chars, a + i, stop) == a + Seek(chars[a..b], i, stop)
  {
    var r := Seek(chars[a..b], i, stop);
    forall k | a + i <= k < a + r ensures !Stops(stop, chars[k]) {
      assert chars[a..b][k - a] == chars[k];
    }
    SeekUnique(chars, a + i, stop, a + r);
  }

  lemma PrefixInSlice(chars: string, a: nat, b: nat, i: nat)
    requires a <= b <= |chars| && i <= b - a && PrefixAt(chars[a..b], i)
    ensures i < b - a && PrefixAt(chars, a + i)
  {
    hide Seek, Known, Lower;
    var v := chars[a..b];
    var start := if i < |v| && v[i] == '-' then i + 1 else i;
    var end := Seek(v, start, AtColonOrSpace);
    SeekInSlice(chars, a, b, start, AtColonOrSpace);
    SliceOfSlice(chars, a, b, start, end);
  }

  lemma SliceOfSlice(chars: string, a: nat, b: nat, start: nat, end: nat)
    requires a <= b <= |chars| && start <= end <= b - a
    ensures chars[a..b][start..end] == chars[a + start..a + end]
  {
    var x, y := chars[a..b][start..end], chars[a + start..a + end];
    assert forall k :: 0 <= k < |x| ==> x[k] == y[k];
  }

  lemma NextPrefixInSlice(chars: string, a: nat, b: nat, k: nat)
    requires a <= b <= |chars| && k <= b - a && NextPrefixAt(chars[a..b], k)
    ensures k < b - a && NextPrefixAt(chars, a + k)
  {
    var j := Seek(chars[a..b], k, AtNonSpace);
    PrefixInSlice(chars, a, b, j);
    SeekInSlice(chars, a, b, k, AtNonSpace);
  }

  /** No prefix token begins the text, and no white space in it leads into one. */
  ghost predicate Clean(v: string) {
    !PrefixAt(v, 0) && forall k :: 0 <= k <= |v| ==> !NextPrefixAt(v, k)
  }

  lemma SliceIsClean(chars: string, a: nat, b: nat)
    requires a <= b <= |chars| && !PrefixAt(chars, a)
    requires forall k :: a <= k < b ==> !NextPrefixAt(chars, k)
    ensures Clean(chars[a..b])
  {
    var v := chars[a..b];
    if PrefixAt(v, 0) {
      PrefixInSlice(chars, a, b, 0);
    }
    forall k | 0 <= k <= |v| ensures !NextPrefixAt(v, k) {
      if NextPrefixAt(v, k) {
        NextPrefixInSlice(chars, a, b, k);
      }
    }
  }

  lemma TrimmedSliceIsClean(chars: string, p: nat, end: nat)
    requires p <= end <= |chars| && !PrefixAt(chars, p)
    requires p < end ==> !IsSpace(chars[p])
    requires forall k :: p <= k < end ==> !NextPrefixAt(chars, k)
    ensures var v := Trim(chars[p..end]); Trim(v) == v && Clean(v)
  {
    hide PrefixAt, NextPrefixAt, Trim, IsSpace, Clean;
    var a, b := TrimCut(chars[p..end]);
    assert p < end ==> chars[p..end][0] == chars[p];
    assert a == 0;
    assert Trim(chars[p..end]) == chars[p..p + b];
    SliceIsClean(chars, p, p + b);
  }

  /** The value of a prefix that takes spaces, when not quoted: it is trimmed, it does not begin
      with a known-prefix token, and nowhere in it does white space lead into one. */
  lemma SpacedValueIsClean(chars: string, pos: nat, prefix: string)
    requires pos <= |chars| && TakesSpaces(Lower(prefix))
    requires var p := Seek(chars, pos, AtNonSpace); p < |chars| ==> chars[p] != '"'
    ensures var v := ScanPrefixedValue(chars, pos, prefix).0; Trim(v) == v && Clean(v)
  {
    var p := Seek(chars, pos, AtNonSpace);
    if !PrefixAt(chars, p) {
      TrimmedSliceIsClean(chars, p, SpacedEnd(chars, p));
    }
  }
}

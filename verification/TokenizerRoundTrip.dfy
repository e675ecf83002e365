/** A printer for query tokens, and exactly which tokens survive printing and tokenizing again. */
module TokenizerRoundTrip {
  import opened Text
  import opened Wrappers
  import opened Tokenizer

  /** A word the tokenizer reads back as it stands. */
  predicate Bare(v: string) {
    v != [] && v[0] != '"' && forall c :: c in v ==> c != ':' && !IsSpace(c)
  }

  /** Text whose first word holds no colon: quoted, it is still read as free text. */
  predicate NoLeadingColon(v: string) {
    var e := Seek(v, 0, AtColonOrSpace);
    e == |v| || v[e] != ':'
  }

  function PrintBody(t: Token): string {
    match t.prefix
    case Some(p) => p + ":\"" + t.value + "\""
    case None => if Bare(t.value) then t.value else "\"" + t.value + "\""
  }

  function PrintToken(t: Token): string {
    if t.negated then "-" + PrintBody(t) else PrintBody(t)
  }

  function Print(ts: seq<Token>): string {
    if ts == [] then ""
    else if |ts| == 1 then PrintToken(ts[0])
    else PrintToken(ts[0]) + " " + Print(ts[1..])
  }

  predicate GoodPrefix(p: string) {
    forall c :: c in p ==> c != ':' && !IsSpace(c)
  }

  predicate Unquoted(v: string) {
    '"' !in v
  }

  /** A plain token must not look negated. */
  predicate MinusIsClear(t: Token) {
    match t.prefix
    case Some(p) => !t.negated && p != [] ==> p[0] != '-'
    case None => !t.negated && Bare(t.value) && |t.value| > 1 ==> t.value[0] != '-'
  }

  predicate Printable(t: Token) {
    && MinusIsClear(t)
    && match t.prefix
       case Some(p) => GoodPrefix(p) && Unquoted(t.value)
       case None => Bare(t.value) || (Unquoted(t.value) && NoLeadingColon(t.value))
  }

  // The printed token sits in `chars` at `i` and ends there or before white space.
  ghost predicate PrintedAt(chars: string, i: nat, body: string) {
    && i + |body| <= |chars|
    && chars[i..i + |body|] == body
    && (i + |body| < |chars| ==> IsSpace(chars[i + |body|]))
  }

  lemma CharsOf(chars: string, i: nat, body: string, k: nat)
    requires PrintedAt(chars, i, body) && k < |body|
    ensures chars[i + k] == body[k]
  {
    assert chars[i..i + |body|][k] == chars[i + k];
  }

  lemma SliceOf(chars: string, i: nat, body: string, a: nat, b: nat)
    requires PrintedAt(chars, i, body) && a <= b <= |body|
    ensures chars[i + a..i + b] == body[a..b]
  {
    var slice, part := chars[i + a..i + b], body[a..b];
    forall j | 0 <= j < b - a ensures slice[j] == part[j] {
      CharsOf(chars, i, body, a + j);
    }
    assert slice == part;
  }

  lemma ScanQuoted(chars: string, i: nat, v: string)
    requires PrintedAt(chars, i, "\"" + v + "\"")
    ensures Unquoted(v) ==> ScanValue(chars, i) == (v, i + |v| + 2)
    ensures Unquoted(ScanValue(chars, i).0)
  {
    var body := "\"" + v + "\"";
    CharsOf(chars, i, body, 0);
    if Unquoted(v) {
      forall k | i + 1 <= k < i + 1 + |v| ensures chars[k] != '"' {
        CharsOf(chars, i, body, k - i);
        assert v[k - i - 1] in v;
      }
      CharsOf(chars, i, body, |v| + 1);
      SeekUnique(chars, i + 1, AtQuote, i + 1 + |v|);
      SliceOf(chars, i, body, 1, |v| + 1);
      assert body[1..|v| + 1] == v;
    }
  }

  lemma ScanBare(chars: string, i: nat, v: string)
    requires PrintedAt(chars, i, v) && Bare(v)
    ensures ScanValue(chars, i) == (v, i + |v|)
    ensures var c := Seek(chars, i, AtColonOrSpace); c == |chars| || chars[c] != ':'
  {
    CharsOf(chars, i, v, 0);
    forall k | i <= k < i + |v| ensures !IsSpace(chars[k]) && chars[k] != ':' {
      CharsOf(chars, i, v, k - i);
      assert v[k - i] in v;
    }
    SeekUnique(chars, i, AtSpace, i + |v|);
    SeekUnique(chars, i, AtColonOrSpace, i + |v|);
  }

  lemma PrefixEnds(chars: string, i: nat, p: string, rest: string)
    requires PrintedAt(chars, i, p + ":" + rest) && GoodPrefix(p)
    ensures Seek(chars, i, AtColonOrSpace) == i + |p| && i + |p| < |chars| && chars[i + |p|] == ':'
    ensures chars[i..i + |p|] == p
    ensures PrintedAt(chars, i + |p| + 1, rest)
  {
    var body := p + ":" + rest;
    forall k | i <= k < i + |p| ensures !Stops(AtColonOrSpace, chars[k]) {
      CharsOf(chars, i, body, k - i);
      assert p[k - i] in p;
    }
    CharsOf(chars, i, body, |p|);
    SeekUnique(chars, i, AtColonOrSpace, i + |p|);
    SliceOf(chars, i, body, 0, |p|);
    SliceOf(chars, i, body, |p| + 1, |body|);
    assert body[..|p|] == p && body[|p| + 1..] == rest;
  }

  lemma QuotedPrefixedValue(chars: string, q: nat, p: string)
    requires q < |chars| && chars[q] == '"'
    ensures ScanPrefixedValue(chars, q, p) == ScanValue(chars, q)
  {
    SeekUnique(chars, q, AtNonSpace, q);
    hide Seek, ScanValue;
  }

  lemma ScanPrefixed(chars: string, i: nat, p: string, v: string)
    requires PrintedAt(chars, i, p + ":\"" + v + "\"") && GoodPrefix(p)
    ensures Seek(chars, i, AtColonOrSpace) == i + |p| && i + |p| < |chars| && chars[i + |p|] == ':'
    ensures chars[i..i + |p|] == p
    ensures Unquoted(v) ==> ScanPrefixedValue(chars, i + |p| + 1, p) == (v, i + |p| + |v| + 3)
    ensures Unquoted(ScanPrefixedValue(chars, i + |p| + 1, p).0)
  {
    hide Seek, ScanValue, ScanPrefixedValue;
    var quoted := "\"" + v + "\"";
    assert p + ":\"" + v + "\"" == p + ":" + quoted;
    PrefixEnds(chars, i, p, quoted);
    CharsOf(chars, i + |p| + 1, quoted, 0);
    QuotedPrefixedValue(chars, i + |p| + 1, p);
    ScanQuoted(chars, i + |p| + 1, v);
  }

  /** Quoted free text is read as free text exactly when its first word has no colon. */
  lemma SeekInQuoted(chars: string, i: nat, v: string)
    requires PrintedAt(chars, i, "\"" + v + "\"")
    ensures var c := Seek(chars, i, AtColonOrSpace);
      (c < |chars| && chars[c] == ':') <==> !NoLeadingColon(v)
  {
    var body := "\"" + v + "\"";
    var e := Seek(v, 0, AtColonOrSpace);
    forall k | i <= k < i + 1 + e ensures !Stops(AtColonOrSpace, chars[k]) {
      CharsOf(chars, i, body, k - i);
    }
    if e < |v| {
      CharsOf(chars, i, body, e + 1);
      SeekUnique(chars, i, AtColonOrSpace, i + 1 + e);
    } else {
      CharsOf(chars, i, body, e + 1);
      SeekUnique(chars, i, AtColonOrSpace, i + |body|);
    }
  }

  lemma BodyFits(chars: string, i: nat, t: Token)
    requires PrintedAt(chars, i, PrintToken(t))
    ensures var start := if t.negated then i + 1 else i; PrintedAt(chars, start, PrintBody(t))
  {
    if t.negated {
      assert PrintToken(t)[1..] == PrintBody(t);
      assert chars[i..i + |PrintToken(t)|][1..] == chars[i + 1..i + 1 + |PrintBody(t)|];
    }
  }

  /** A printable token in place is read back exactly, and reading stops right after it. */
  lemma PrintedTokenReadsBack(chars: string, i: nat, t: Token)
    requires Printable(t) && PrintedAt(chars, i, PrintToken(t))
    ensures i < |chars| && !IsSpace(chars[i])
    ensures NextToken(chars, i) == (t, i + |PrintToken(t)|)
  {
    hide NextToken, Seek, ScanValue, ScanPrefixedValue, NegatedAt, PrintedAt, PrintBody;
    FirstCharacter(chars, i, t);
    BodyFits(chars, i, t);
    var start := if t.negated then i + 1 else i;
    BodyReadsBack(chars, i, start, t);
  }

  lemma BodyReadsBack(chars: string, i: nat, start: nat, t: Token)
    requires Printable(t) && PrintedAt(chars, start, PrintBody(t))
    requires i < |chars| && !IsSpace(chars[i]) && NegatedAt(chars, i) == t.negated
    requires start == if t.negated then i + 1 else i
    ensures NextToken(chars, i) == (t, start + |PrintBody(t)|)
  {
    hide NextToken, Seek, ScanValue, ScanPrefixedValue, NegatedAt, PrintedAt, PrintToken, IsSpace, Lower, TakesSpaces;
    if t.prefix.Some? {
      var p := t.prefix.value;
      ScanPrefixed(chars, start, p, t.value);
      NextPrefixed(chars, i, start, start + |p|);
    } else {
      FreeBody(chars, start, t.value);
      NextFree(chars, i, start);
    }
  }

  lemma FreeBody(chars: string, start: nat, v: string)
    requires Bare(v) || (Unquoted(v) && NoLeadingColon(v))
    requires PrintedAt(chars, start, PrintBody(Token(false, None, v)))
    ensures ScanValue(chars, start) == (v, start + |PrintBody(Token(false, None, v))|)
    ensures var c := Seek(chars, start, AtColonOrSpace); c == |chars| || chars[c] != ':'
  {
    hide ScanValue, PrintedAt, Unquoted, NoLeadingColon, IsSpace, Seek;
    if Bare(v) {
      ScanBare(chars, start, v);
    } else {
      SeekInQuoted(chars, start, v);
      ScanQuoted(chars, start, v);
    }
  }

  /** Up to its prefix being well formed, a printed token is read as negated just when it is. */
  lemma FirstCharacter(chars: string, i: nat, t: Token)
    requires PrintedAt(chars, i, PrintToken(t))
    requires t.prefix.Some? ==> GoodPrefix(t.prefix.value)
    ensures i < |chars| && !IsSpace(chars[i])
    ensures MinusIsClear(t) ==> (NegatedAt(chars, i) <==> t.negated)
    ensures !MinusIsClear(t) ==> NegatedAt(chars, i)
  {
    var printed, body := PrintToken(t), PrintBody(t);
    FirstOfBody(t);
    CharsOf(chars, i, printed, 0);
    if t.negated {
      assert printed[1] == body[0];
      CharsOf(chars, i, printed, 1);
    } else if body[0] == '-' {
      if |body| > 1 {
        SecondOfBody(t);
        CharsOf(chars, i, printed, 1);
      }
    }
  }

  lemma FirstOfBody(t: Token)
    requires t.prefix.Some? ==> GoodPrefix(t.prefix.value)
    ensures PrintBody(t) != [] && !IsSpace(PrintBody(t)[0])
    ensures !t.negated ==> (PrintBody(t)[0] == '-' && |PrintBody(t)| > 1 <==> !MinusIsClear(t))
  {
    match t.prefix
    case Some(p) =>
      if p != [] {
        assert p[0] in p && PrintBody(t)[0] == p[0];
      } else {
        assert PrintBody(t)[0] == ':';
      }
    case None =>
      if Bare(t.value) {
        assert t.value[0] in t.value;
      }
  }

  lemma SecondOfBody(t: Token)
    requires t.prefix.Some? ==> GoodPrefix(t.prefix.value)
    requires |PrintBody(t)| > 1 && PrintBody(t)[0] == '-'
    ensures !IsSpace(PrintBody(t)[1])
  {
    match t.prefix
    case Some(p) =>
      if |p| > 1 {
        assert p[1] in p && PrintBody(t)[1] == p[1];
      } else {
        assert PrintBody(t)[1] == ':';
      }
    case None =>
      assert t.value[1] in t.value;
  }

  /** An unprintable token in place is read as something else. */
  lemma UnprintableReadsOtherwise(chars: string, i: nat, t: Token)
    requires !Printable(t) && PrintedAt(chars, i, PrintToken(t))
    requires i < |chars| && !IsSpace(chars[i])
    ensures NextToken(chars, i).0 != t
  {
    hide NextToken, Seek, ScanValue, ScanPrefixedValue, NegatedAt, PrintedAt;
    ReadPrefixIsGood(chars, i);
    if t.prefix.Some? && !GoodPrefix(t.prefix.value) {
    } else {
      FirstCharacter(chars, i, t);
      ReadSign(chars, i);
      if MinusIsClear(t) {
        BodyFits(chars, i, t);
        var start := if t.negated then i + 1 else i;
        match t.prefix
        case Some(p) =>
          ScanPrefixed(chars, start, p, t.value);
          NextPrefixed(chars, i, start, start + |p|);
        case None =>
          SeekInQuoted(chars, start, t.value);
          ScanQuoted(chars, start, t.value);
          if NoLeadingColon(t.value) {
            NextFree(chars, i, start);
          } else {
            NextPrefixed(chars, i, start, Seek(chars, start, AtColonOrSpace));
          }
      }
    }
  }

  lemma ReadSign(chars: string, i: nat)
    requires i < |chars| && !IsSpace(chars[i])
    ensures NextToken(chars, i).0.negated == NegatedAt(chars, i)
  {
    hide Seek, ScanValue, ScanPrefixedValue;
  }

  lemma ReadPrefixIsGood(chars: string, i: nat)
    requires i < |chars| && !IsSpace(chars[i])
    ensures var t := NextToken(chars, i).0; t.prefix.Some? ==> GoodPrefix(t.prefix.value)
  {
    hide Seek, ScanValue, ScanPrefixedValue;
  }

  // ---------------------------------------------------------------------------------------
  // Whole lists
  // ---------------------------------------------------------------------------------------

  lemma HeadPrintedAt(chars: string, i: nat, ts: seq<Token>)
    requires i <= |chars| && chars[i..] == Print(ts) && ts != []
    ensures PrintedAt(chars, i, PrintToken(ts[0]))
    ensures |ts| > 1 ==>
      var n := i + |PrintToken(ts[0])|; n < |chars| && chars[n] == ' ' && chars[n + 1..] == Print(ts[1..])
    ensures |ts| == 1 ==> i + |PrintToken(ts[0])| == |chars|
  {
    var head := PrintToken(ts[0]);
    var n := i + |head|;
    if |ts| > 1 {
      assert chars[i..] == head + " " + Print(ts[1..]);
      assert chars[i..][..|head|] == chars[i..n] && (head + " " + Print(ts[1..]))[..|head|] == head;
      assert chars[i..][|head|] == ' ' && chars[i..][|head|] == chars[n];
      assert chars[i..][|head| + 1..] == chars[n + 1..];
    } else {
      assert chars[i..] == chars[i..n];
    }
  }

  lemma TokensStep(chars: string, i: nat)
    requires i < |chars|
    ensures !IsSpace(chars[i]) ==>
      TokensFrom(chars, i) == [NextToken(chars, i).0] + TokensFrom(chars, NextToken(chars, i).1)
    ensures IsSpace(chars[i]) ==> TokensFrom(chars, i) == TokensFrom(chars, i + 1)
  {
    hide NextToken;
  }

  lemma {:induction false} ReadsBackFrom(chars: string, i: nat, ts: seq<Token>)
    requires i <= |chars| && chars[i..] == Print(ts)
    requires forall t :: t in ts ==> Printable(t)
    ensures TokensFrom(chars, i) == ts
    decreases |ts|
  {
    hide NextToken, PrintedAt, PrintToken, Printable, TokensFrom, Seek;
    if ts == [] {
      assert i == |chars|;
      NoneAtEnd(chars);
    } else {
      HeadPrintedAt(chars, i, ts);
      PrintedTokenReadsBack(chars, i, ts[0]);
      TokensStep(chars, i);
      var n := i + |PrintToken(ts[0])|;
      if |ts| > 1 {
        TokensStep(chars, n);
        ReadsBackFrom(chars, n + 1, ts[1..]);
        assert TokensFrom(chars, i) == [ts[0]] + ts[1..];
      } else {
        NoneAtEnd(chars);
        assert TokensFrom(chars, i) == [ts[0]];
      }
    }
  }

  lemma NoneAtEnd(chars: string)
    ensures TokensFrom(chars, |chars|) == []
  {
  }

  lemma {:induction false} AllPrintableFrom(chars: string, i: nat, ts: seq<Token>)
    requires i <= |chars| && chars[i..] == Print(ts) && TokensFrom(chars, i) == ts
    ensures forall t :: t in ts ==> Printable(t)
    decreases |ts|
  {
    hide NextToken, PrintedAt, PrintToken, Printable, TokensFrom, Seek;
    if ts != [] {
      HeadIsPrintable(chars, i, ts);
      HeadPrintedAt(chars, i, ts);
      PrintedTokenReadsBack(chars, i, ts[0]);
      TokensStep(chars, i);
      var n := i + |PrintToken(ts[0])|;
      if |ts| > 1 {
        TokensStep(chars, n);
        assert TokensFrom(chars, n + 1) == ts[1..];
        AllPrintableFrom(chars, n + 1, ts[1..]);
      }
      assert ts == [ts[0]] + ts[1..];
    }
  }

  lemma HeadIsPrintable(chars: string, i: nat, ts: seq<Token>)
    requires i <= |chars| && chars[i..] == Print(ts) && TokensFrom(chars, i) == ts && ts != []
    ensures Printable(ts[0])
  {
    var p := Seek(chars, i, AtNonSpace);
    assert NextToken(chars, p).0 == ts[0];
    hide NextToken, PrintedAt, PrintToken, Seek, TokensFrom, NegatedAt;
    HeadPrintedAt(chars, i, ts);
    ReadPrefixIsGood(chars, p);
    FirstCharacter(chars, i, ts[0]);
    SeekUnique(chars, i, AtNonSpace, i);
    if !Printable(ts[0]) {
      UnprintableReadsOtherwise(chars, i, ts[0]);
    }
  }

  /** The round trip, with its exact reach: tokenizing the print of a list returns that list if
      and only if every token in it is printable. */
  lemma RoundTripIff(ts: seq<Token>)
    ensures Tokens(Print(ts)) == ts <==> forall t :: t in ts ==> Printable(t)
  {
    assert Print(ts)[0..] == Print(ts);
    if forall t :: t in ts ==> Printable(t) {
      ReadsBackFrom(Print(ts), 0, ts);
    }
    if Tokens(Print(ts)) == ts {
      AllPrintableFrom(Print(ts), 0, ts);
    }
  }

  /** A quoted prefixed value, or a bare word that does not start with a minus. */
  predicate PlainToken(t: Token) {
    match t.prefix
    case Some(p) => GoodPrefix(p) && Unquoted(t.value) && (p != [] ==> p[0] != '-')
    case None => Bare(t.value) && t.value[0] != '-'
  }

  /** The round trip for the plain lists: whatever their prefixes, values and signs, they read back. */
  lemma PlainListsReadBack(ts: seq<Token>)
    requires forall t :: t in ts ==> PlainToken(t)
    ensures Tokens(Print(ts)) == ts
  {
    forall t | t in ts ensures Printable(t) {
      assert PlainToken(t);
    }
    RoundTripIff(ts);
  }

  /** Printing is injective on printable lists. */
  lemma PrintInjective(ts: seq<Token>, us: seq<Token>)
    requires (forall t :: t in ts ==> Printable(t)) && (forall u :: u in us ==> Printable(u))
    requires Print(ts) == Print(us)
    ensures ts == us
  {
    RoundTripIff(ts);
    RoundTripIff(us);
  }
}

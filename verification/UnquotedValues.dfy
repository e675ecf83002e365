/** Reading back prefixed values printed without quotes: words for most prefixes, and for the prefixes
    that take spaces any trimmed text that leads into no other prefix. */
module UnquotedValues {
  import opened Text
  import opened Tokenizer
  import opened TokenizerRoundTrip
  import opened Wrappers

  predicate Trimmed(v: string) {
    v != [] && !IsSpace(v[0]) && !IsSpace(v[|v| - 1])
  }

  // The text of v between p and q, ending the text or followed by white space.
  ghost predicate Stands(chars: string, p: nat, q: nat, v: string) {
    p <= q <= |chars| && chars[p..q] == v && (q < |chars| ==> IsSpace(chars[q]))
  }

  lemma CharIn(chars: string, p: nat, q: nat, v: string, k: nat)
    requires Stands(chars, p, q, v) && p <= k < q
    ensures chars[k] == v[k - p]
  {
    assert chars[p..q][k - p] == chars[k];
  }

  /** A prefix token that starts inside the value lies wholly inside it. */
  lemma PrefixStaysInside(chars: string, p: nat, q: nat, v: string, i: nat)
    requires Stands(chars, p, q, v) && p <= i < q && PrefixAt(chars, i)
    ensures PrefixAt(v, i - p)
  {
    hide Known, Lower;
    var start := if chars[i] == '-' then i + 1 else i;
    var end := Seek(chars, start, AtColonOrSpace);
    assert end < q;
    CharIn(chars, p, q, v, i);
    CharIn(chars, p, q, v, end);
    forall k | start - p <= k < end - p ensures !Stops(AtColonOrSpace, v[k]) {
      CharIn(chars, p, q, v, k + p);
    }
    SeekUnique(v, start - p, AtColonOrSpace, end - p);
    SliceOfSlice(chars, p, q, start - p, end - p);
  }

  lemma NextPrefixStaysInside(chars: string, p: nat, q: nat, v: string, k: nat)
    requires Stands(chars, p, q, v) && Trimmed(v) && p <= k < q && NextPrefixAt(chars, k)
    ensures NextPrefixAt(v, k - p)
  {
    hide PrefixAt, IsSpace;
    var j := Seek(chars, k, AtNonSpace);
    CharIn(chars, p, q, v, k);
    CharIn(chars, p, q, v, q - 1);
    assert j <= q - 1;
    forall m | k - p <= m < j - p ensures !Stops(AtNonSpace, v[m]) {
      CharIn(chars, p, q, v, m + p);
    }
    CharIn(chars, p, q, v, j);
    SeekUnique(v, k - p, AtNonSpace, j - p);
    PrefixStaysInside(chars, p, q, v, j);
  }

  // What may follow an unquoted spaced value: white space into a known prefix, or to the end.
  ghost predicate Followed(chars: string, q: nat)
    requires q <= |chars|
  {
    NextPrefixAt(chars, q) || White(chars, q, |chars|)
  }

  function ReadTo(chars: string, q: nat): nat
    requires q <= |chars|
  {
    if NextPrefixAt(chars, q) then q else |chars|
  }

  lemma WhiteLeadsNowhere(chars: string, q: nat)
    requires q <= |chars| && White(chars, q, |chars|)
    ensures forall k :: q <= k <= |chars| ==> !NextPrefixAt(chars, k)
  {
    hide IsSpace, Known, Lower;
    forall k | q <= k <= |chars| ensures !NextPrefixAt(chars, k) {
      SeekUnique(chars, k, AtNonSpace, |chars|);
    }
  }

  lemma SpacedStop(chars: string, p: nat, q: nat, v: string)
    requires Stands(chars, p, q, v) && Trimmed(v) && Clean(v) && Followed(chars, q)
    ensures SpacedEnd(chars, p) == ReadTo(chars, q)
  {
    hide NextPrefixAt, IsSpace;
    forall k | p <= k < q ensures !NextPrefixAt(chars, k) {
      if NextPrefixAt(chars, k) {
        NextPrefixStaysInside(chars, p, q, v, k);
      }
    }
    if !NextPrefixAt(chars, q) {
      WhiteLeadsNowhere(chars, q);
    }
  }

  lemma TrimToStop(chars: string, p: nat, q: nat, v: string)
    requires Stands(chars, p, q, v) && Trimmed(v) && Followed(chars, q)
    ensures Trim(chars[p..ReadTo(chars, q)]) == v
  {
    hide IsSpace, NextPrefixAt;
    var s := chars[p..ReadTo(chars, q)];
    assert s[..q - p] == v && s[0] == v[0] && s[q - p - 1] == v[|v| - 1];
    assert forall k :: q - p <= k < |s| ==> s[k] == chars[k + p];
    TrimIs(s, 0, q - p);
    assert s[0..q - p] == v;
  }

  /** An unquoted value of a prefix that takes spaces is read exactly, after any white space. */
  lemma SpacedValueReads(chars: string, pos: nat, prefix: string, p: nat, q: nat, v: string)
    requires TakesSpaces(Lower(prefix)) && pos <= p && Stands(chars, p, q, v) && White(chars, pos, p)
    requires Trimmed(v) && Clean(v) && v[0] != '"' && Followed(chars, q)
    ensures ScanPrefixedValue(chars, pos, prefix) == (v, ReadTo(chars, q))
  {
    CharIn(chars, p, q, v, p);
    SeekUnique(chars, pos, AtNonSpace, p);
    if PrefixAt(chars, p) {
      PrefixStaysInside(chars, p, q, v, p);
    }
    SpacedStop(chars, p, q, v);
    TrimToStop(chars, p, q, v);
    hide Trim, PrefixAt, IsSpace, TakesSpaces, Lower;
  }

  predicate Word(v: string) {
    v != [] && forall c :: c in v ==> !IsSpace(c)
  }

  /** An unquoted word of any other prefix, likewise. */
  lemma WordReads(chars: string, pos: nat, prefix: string, p: nat, q: nat, v: string)
    requires !TakesSpaces(Lower(prefix)) && pos <= p && Stands(chars, p, q, v) && White(chars, pos, p)
    requires Word(v) && v[0] != '"'
    ensures ScanPrefixedValue(chars, pos, prefix) == (v, q)
  {
    hide IsSpace, TakesSpaces, Lower;
    CharIn(chars, p, q, v, p);
    SeekUnique(chars, pos, AtNonSpace, p);
    forall k | p <= k < q ensures !IsSpace(chars[k]) {
      CharIn(chars, p, q, v, k);
      assert v[k - p] in v;
    }
    SeekUnique(chars, p, AtSpace, q);
  }

  // ---------------------------------------------------------------------------------------
  // Tokens and lists
  // ---------------------------------------------------------------------------------------

  predicate Spaced(t: Token) {
    t.prefix.Some? && TakesSpaces(Lower(t.prefix.value))
  }

  /** A prefixed token whose value needs no quotes. */
  ghost predicate Unquotable(t: Token) {
    && t.prefix.Some? && GoodPrefix(t.prefix.value) && MinusIsClear(t)
    && t.value != [] && t.value[0] != '"'
    && if Spaced(t) then Trimmed(t.value) && Clean(t.value) else Word(t.value)
  }

  function PrintUnquoted(t: Token): string {
    (if t.negated then "-" else "") + (if t.prefix.Some? then t.prefix.value + ":" + t.value else t.value)
  }

  // The sign of a token, and where its prefix starts.
  lemma SignReads(chars: string, i: nat, q: nat, t: Token)
    requires Unquotable(t) && Stands(chars, i, q, PrintUnquoted(t))
    ensures i < |chars| && !IsSpace(chars[i]) && (NegatedAt(chars, i) <==> t.negated)
    ensures var start := if t.negated then i + 1 else i; PrintedAt(chars, start, t.prefix.value + ":" + t.value)
  {
    hide Clean, TakesSpaces, Lower;
    var p, printed := t.prefix.value, PrintUnquoted(t);
    var body := p + ":" + t.value;
    CharIn(chars, i, q, printed, i);
    assert p != [] ==> p[0] in p;
    if t.negated {
      CharIn(chars, i, q, printed, i + 1);
      assert printed[1..] == body && chars[i..q][1..] == chars[i + 1..q];
      assert printed[1] == body[0];
    } else {
      assert printed == body;
    }
  }

  /** `[-]prefix:value`, read wherever it stands: for a prefix that takes spaces when white space into a
      known prefix or to the end of the text follows, for any other prefix when any white space does. */
  lemma UnquotedTokenReadsBack(chars: string, i: nat, q: nat, t: Token)
    requires Unquotable(t) && Stands(chars, i, q, PrintUnquoted(t)) && (Spaced(t) ==> Followed(chars, q))
    ensures i < |chars| && !IsSpace(chars[i])
    ensures NextToken(chars, i) == (t, if Spaced(t) then ReadTo(chars, q) else q)
  {
    hide Clean, NextToken, Seek, ScanPrefixedValue, NegatedAt, PrintedAt, IsSpace, TakesSpaces, Lower, NextPrefixAt, Stands;
    SignReads(chars, i, q, t);
    var p := t.prefix.value;
    var start := if t.negated then i + 1 else i;
    PrefixEnds(chars, start, p, t.value);
    NextPrefixed(chars, i, start, start + |p|);
    ValueStands(chars, i, q, t);
    if Spaced(t) {
      SpacedValueReads(chars, start + |p| + 1, p, start + |p| + 1, q, t.value);
    } else {
      WordReads(chars, start + |p| + 1, p, start + |p| + 1, q, t.value);
    }
  }

  lemma ValueStands(chars: string, i: nat, q: nat, t: Token)
    requires Unquotable(t) && Stands(chars, i, q, PrintUnquoted(t))
    ensures var at := (if t.negated then i + 1 else i) + |t.prefix.value| + 1;
      Stands(chars, at, q, t.value) && White(chars, at, at)
  {
    hide Clean, IsSpace, TakesSpaces, Lower;
    var printed := PrintUnquoted(t);
    var n := |printed| - |t.value|;
    assert printed[n..] == t.value && chars[i..q][n..] == chars[i + n..q];
  }

  function PrintAll(ts: seq<Token>): string {
    if ts == [] then ""
    else if |ts| == 1 then PrintUnquoted(ts[0])
    else PrintUnquoted(ts[0]) + " " + PrintAll(ts[1..])
  }

  predicate KnownToken(t: Token) {
    t.prefix.Some? && Known(Lower(t.prefix.value))
  }

  /** A spaced value is followed by a known prefix, if by anything. */
  ghost predicate Separated(ts: seq<Token>) {
    forall i :: 0 <= i < |ts| - 1 && Spaced(ts[i]) ==> KnownToken(ts[i + 1])
  }

  lemma HeadStands(chars: string, i: nat, ts: seq<Token>) returns (q: nat)
    requires ts != []
    requires i <= |chars| && chars[i..] == PrintAll(ts)
    ensures Stands(chars, i, q, PrintUnquoted(ts[0]))
    ensures |ts| == 1 ==> q == |chars|
    ensures |ts| > 1 ==> q < |chars| && chars[q] == ' ' && chars[q + 1..] == PrintAll(ts[1..])
  {
    var head := PrintUnquoted(ts[0]);
    q := i + |head|;
    assert chars[i..][..|head|] == chars[i..q];
    if |ts| > 1 {
      var rest := head + " " + PrintAll(ts[1..]);
      assert chars[i..] == rest;
      assert rest[..|head|] == head && rest[|head|] == ' ' && rest[|head| + 1..] == PrintAll(ts[1..]);
      assert chars[i..][|head|] == chars[q] && chars[i..][|head| + 1..] == chars[q + 1..];
    } else {
      assert chars[i..] == chars[i..q];
    }
  }

  // One space before a printed token with a known prefix leads into it.
  lemma SpaceLeadsIn(chars: string, q: nat, ts: seq<Token>)
    requires ts != [] && Unquotable(ts[0]) && KnownToken(ts[0])
    requires q < |chars| && chars[q] == ' ' && chars[q + 1..] == PrintAll(ts)
    ensures NextPrefixAt(chars, q)
  {
    var end := HeadStands(chars, q + 1, ts);
    hide Unquotable, KnownToken, PrintUnquoted, NextPrefixAt, Stands, PrintAll;
    SpaceIntoToken(chars, q, end, ts[0]);
  }

  lemma SpaceIntoToken(chars: string, q: nat, end: nat, t: Token)
    requires Unquotable(t) && KnownToken(t) && q < |chars| && chars[q] == ' '
    requires Stands(chars, q + 1, end, PrintUnquoted(t))
    ensures NextPrefixAt(chars, q)
  {
    hide Clean, TakesSpaces, Stands, Known, Lower, PrintUnquoted, PrintedAt, Seek;
    SignReads(chars, q + 1, end, t);
    SeekUnique(chars, q, AtNonSpace, q + 1);
    PrefixEnds(chars, if t.negated then q + 2 else q + 1, t.prefix.value, t.value);
    FirstIsMinus(chars, q + 1, end, t);
  }

  lemma FirstIsMinus(chars: string, i: nat, q: nat, t: Token)
    requires Unquotable(t) && Stands(chars, i, q, PrintUnquoted(t))
    ensures i < |chars| && (chars[i] == '-' <==> t.negated)
  {
    hide Clean, TakesSpaces, Lower, IsSpace;
    CharIn(chars, i, q, PrintUnquoted(t), i);
  }

  lemma {:induction false} UnquotedReadsFrom(chars: string, i: nat, ts: seq<Token>)
    requires (forall t :: t in ts ==> Unquotable(t)) && Separated(ts)
    requires i <= |chars| && chars[i..] == PrintAll(ts)
    ensures TokensFrom(chars, i) == ts
    decreases |ts|
  {
    hide Unquotable, NextToken, TokensFrom, Seek, KnownToken, Spaced, NextPrefixAt, Stands, IsSpace, PrintUnquoted;
    if ts == [] {
      assert i == |chars|;
      NoneAtEnd(chars);
    } else {
      var t := ts[0];
      assert t in ts;
      var q := HeadStands(chars, i, ts);
      if |ts| == 1 {
        WhiteLeadsNowhere(chars, |chars|);
        UnquotedTokenReadsBack(chars, i, q, t);
        TokensStep(chars, i);
        NoneAtEnd(chars);
        assert ts == [t];
      } else {
        if Spaced(t) {
          assert KnownToken(ts[1]) && ts[1..][0] == ts[1] && Unquotable(ts[1]);
          SpaceLeadsIn(chars, q, ts[1..]);
        }
        UnquotedTokenReadsBack(chars, i, q, t);
        TokensStep(chars, i);
        SpaceIsSpace();
        TokensStep(chars, q);
        assert forall k :: 0 <= k < |ts| - 1 ==> ts[1..][k] == ts[k + 1];
        UnquotedReadsFrom(chars, q + 1, ts[1..]);
        assert ts == [t] + ts[1..];
      }
    }
  }

  lemma SpaceIsSpace()
    ensures IsSpace(' ')
  {
  }

  /** The round trip without quotes: lists of prefixed tokens, their values words or spaced text, read
      back exactly. */
  lemma UnquotedListsReadBack(ts: seq<Token>)
    requires (forall t :: t in ts ==> Unquotable(t)) && Separated(ts)
    ensures Tokens(PrintAll(ts)) == ts
  {
    hide Unquotable, TokensFrom;
    assert PrintAll(ts)[0..] == PrintAll(ts);
    UnquotedReadsFrom(PrintAll(ts), 0, ts);
  }
}

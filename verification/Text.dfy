/** The text helpers of the Rust standard library that several components use: trimming, ASCII
    lower case, and splitting on one character. */
module Text {
  /** Unicode White_Space. */
  predicate IsSpace(c: char) {
    || '\U{0009}' <= c <= '\U{000D}' || c == ' ' || c == '\U{0085}' || c == '\U{00A0}' || c == '\U{1680}'
    || '\U{2000}' <= c <= '\U{200A}' || c == '\U{2028}' || c == '\U{2029}' || c == '\U{202F}'
    || c == '\U{205F}' || c == '\U{3000}'
  }

  function LowerChar(c: char): char {
    if 'A' <= c <= 'Z' then c + ('a' - 'A') else c
  }

  function Lower(s: string): (r: string)
    ensures |r| == |s|
    ensures forall i :: 0 <= i < |s| ==>
      if 'A' <= s[i] <= 'Z' then r[i] as int == s[i] as int + 32 else r[i] == s[i]
  {
    seq(|s|, i requires 0 <= i < |s| => LowerChar(s[i]))
  }

  function TrimStart(s: string): string {
    if s != [] && IsSpace(s[0]) then TrimStart(s[1..]) else s
  }

  function TrimEnd(s: string): string {
    if s != [] && IsSpace(s[|s| - 1]) then TrimEnd(s[..|s| - 1]) else s
  }

  function Trim(s: string): string {
    TrimEnd(TrimStart(s))
  }

  lemma {:induction false} TrimStartCut(s: string) returns (a: nat)
    ensures a <= |s| && TrimStart(s) == s[a..]
    ensures TrimStart(s) != [] ==> !IsSpace(TrimStart(s)[0])
    ensures s != [] && !IsSpace(s[0]) ==> a == 0
    ensures forall k :: 0 <= k < a ==> IsSpace(s[k])
  {
    if s != [] && IsSpace(s[0]) {
      a := TrimStartCut(s[1..]);
      a := a + 1;
    } else {
      a := 0;
    }
  }

  lemma {:induction false} TrimEndCut(s: string) returns (b: nat)
    ensures b <= |s| && TrimEnd(s) == s[..b]
    ensures TrimEnd(s) != [] ==> !IsSpace(TrimEnd(s)[b - 1])
    ensures forall k :: b <= k < |s| ==> IsSpace(s[k])
  {
    if s != [] && IsSpace(s[|s| - 1]) {
      b := TrimEndCut(s[..|s| - 1]);
    } else {
      b := |s|;
    }
  }

  /** `Trim` cuts a slice out of its argument: what it cuts off is all white space, and neither end of
      what is left is. */
  lemma TrimCut(s: string) returns (a: nat, b: nat)
    ensures a <= b <= |s| && Trim(s) == s[a..b]
    ensures Trim(s) != [] ==> !IsSpace(Trim(s)[0]) && !IsSpace(Trim(s)[|Trim(s)| - 1])
    ensures Trim(Trim(s)) == Trim(s)
    ensures s == [] || !IsSpace(s[0]) ==> a == 0
    ensures forall k :: 0 <= k < a || b <= k < |s| ==> IsSpace(s[k])
  {
    hide IsSpace;
    a := TrimStartCut(s);
    var n := TrimEndCut(TrimStart(s));
    b := a + n;
    assert forall k :: b <= k < |s| ==> s[k] == TrimStart(s)[k - a];
  }

  /** That determines it: the slice between white space on both sides is the trimmed text. */
  lemma TrimIs(s: string, a: nat, b: nat)
    requires a < b <= |s| && !IsSpace(s[a]) && !IsSpace(s[b - 1])
    requires forall k :: 0 <= k < a || b <= k < |s| ==> IsSpace(s[k])
    ensures Trim(s) == s[a..b]
  {
    hide IsSpace, Trim;
    var c, d := TrimCut(s);
    assert c <= a && b <= d;
    assert s[c..d][0] == s[c] && s[c..d][d - c - 1] == s[d - 1];
  }

  // ---------------------------------------------------------------------------------------
  // Splitting
  // ---------------------------------------------------------------------------------------

  function Split(s: string, sep: char): (parts: seq<string>)
    ensures parts != []
  {
    if s == "" then [""]
    else
      var rest := Split(s[1..], sep);
      if s[0] == sep then [""] + rest else [[s[0]] + rest[0]] + rest[1..]
  }

  function Join(parts: seq<string>, sep: char): string
    requires parts != []
  {
    if |parts| == 1 then parts[0] else parts[0] + [sep] + Join(parts[1..], sep)
  }

  ghost predicate Unbroken(parts: seq<string>, sep: char) {
    forall i :: 0 <= i < |parts| ==> sep !in parts[i]
  }

  lemma {:induction false} JoinOfSplit(s: string, sep: char)
    ensures Unbroken(Split(s, sep), sep) && Join(Split(s, sep), sep) == s
  {
    if s != "" {
      var rest := Split(s[1..], sep);
      JoinOfSplit(s[1..], sep);
      assert s == [s[0]] + s[1..];
      if s[0] == sep {
        assert ([""] + rest)[1..] == rest;
      } else {
        var parts := [[s[0]] + rest[0]] + rest[1..];
        assert parts[1..] == rest[1..];
      }
    }
  }

  lemma {:induction false} SplitPrefix(a: string, s: string, sep: char)
    requires sep !in a
    ensures Split(a + s, sep) == [a + Split(s, sep)[0]] + Split(s, sep)[1..]
  {
    if a == "" {
      assert a + s == s;
      assert "" + Split(s, sep)[0] == Split(s, sep)[0];
    } else {
      SplitPrefix(a[1..], s, sep);
      assert (a + s)[0] == a[0] && a[0] != sep && (a + s)[1..] == a[1..] + s;
      assert [a[0]] + (a[1..] + Split(s, sep)[0]) == a + Split(s, sep)[0];
      assert Split(a[1..] + s, sep)[1..] == Split(s, sep)[1..];
    }
  }

  lemma {:induction false} SplitOfJoin(parts: seq<string>, sep: char)
    requires parts != [] && Unbroken(parts, sep)
    ensures Split(Join(parts, sep), sep) == parts
  {
    if |parts| == 1 {
      SplitPrefix(parts[0], "", sep);
      assert parts[0] + "" == parts[0];
    } else {
      var tail := [sep] + Join(parts[1..], sep);
      SplitOfJoin(parts[1..], sep);
      assert tail[1..] == Join(parts[1..], sep);
      SplitPrefix(parts[0], tail, sep);
      assert parts[0] + "" == parts[0];
      assert Join(parts, sep) == parts[0] + tail;
    }
  }
}

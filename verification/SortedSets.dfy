/** A `BTreeSet<String>` as the strictly increasing sequence it iterates as. */
module SortedSets {
  import opened StringOrder

  function AsSet(items: seq<string>): set<string> {
    set item | item in items
  }

  ghost predicate StrictlySorted(items: seq<string>) {
    forall i, j :: 0 <= i < j < |items| ==> Less(items[i], items[j])
  }

  function Insert(items: seq<string>, item: string): (r: seq<string>)
    ensures forall x :: x in r <==> x in items || x == item
  {
    if items == [] then [item]
    else if item == items[0] then items
    else if Less(item, items[0]) then [item] + items
    else
      assert items == [items[0]] + items[1..];
      [items[0]] + Insert(items[1..], item)
  }

  function Without(items: seq<string>, item: string): (r: seq<string>)
    ensures forall x :: x in r <==> x in items && x != item
  {
    if items == [] then []
    else
      assert items == [items[0]] + items[1..];
      if items[0] == item then Without(items[1..], item)
      else [items[0]] + Without(items[1..], item)
  }

  /** `for item in more { set.insert(item) }` */
  function InsertAll(items: seq<string>, more: seq<string>): (r: seq<string>)
    ensures forall x :: x in r <==> x in items || x in more
  {
    if more == [] then items
    else
      var n := |more| - 1;
      assert more == more[..n] + [more[n]];
      Insert(InsertAll(items, more[..n]), more[n])
  }

  /** `for item in gone { set.remove(item) }` */
  function WithoutAll(items: seq<string>, gone: seq<string>): (r: seq<string>)
    ensures forall x :: x in r <==> x in items && x !in gone
  {
    if gone == [] then items
    else
      var n := |gone| - 1;
      assert gone == gone[..n] + [gone[n]];
      Without(WithoutAll(items, gone[..n]), gone[n])
  }

  /** `items.into_iter().collect::<BTreeSet<_>>()` */
  function Collect(items: seq<string>): (r: seq<string>)
    ensures forall x :: x in r <==> x in items
  {
    InsertAll([], items)
  }

  lemma {:induction false} InsertSorted(items: seq<string>, item: string)
    requires StrictlySorted(items)
    ensures StrictlySorted(Insert(items, item))
  {
    if items == [] || item == items[0] {
    } else if Less(item, items[0]) {
      forall j | 0 < j < |items| ensures Less(item, items[j]) {
        LessTransitive(item, items[0], items[j]);
      }
    } else {
      var rest := Insert(items[1..], item);
      InsertSorted(items[1..], item);
      LessTotal(item, items[0]);
      forall j | 0 <= j < |rest| ensures Less(items[0], rest[j]) {
        assert rest[j] in rest;
      }
    }
  }

  lemma {:induction false} WithoutSorted(items: seq<string>, item: string)
    requires StrictlySorted(items)
    ensures StrictlySorted(Without(items, item))
  {
    if items != [] {
      var rest := Without(items[1..], item);
      WithoutSorted(items[1..], item);
      forall j | 0 <= j < |rest| ensures Less(items[0], rest[j]) {
        assert rest[j] in rest;
      }
    }
  }

  lemma {:induction false} InsertAllSorted(items: seq<string>, more: seq<string>)
    requires StrictlySorted(items)
    ensures StrictlySorted(InsertAll(items, more))
  {
    if more != [] {
      var n := |more| - 1;
      InsertAllSorted(items, more[..n]);
      InsertSorted(InsertAll(items, more[..n]), more[n]);
    }
  }

  lemma {:induction false} WithoutAllSorted(items: seq<string>, gone: seq<string>)
    requires StrictlySorted(items)
    ensures StrictlySorted(WithoutAll(items, gone))
  {
    if gone != [] {
      var n := |gone| - 1;
      WithoutAllSorted(items, gone[..n]);
      WithoutSorted(WithoutAll(items, gone[..n]), gone[n]);
    }
  }

  /** The canonical form: two iterations of the same set are the same sequence. */
  lemma {:induction false} SortedIsCanonical(a: seq<string>, b: seq<string>)
    requires StrictlySorted(a) && StrictlySorted(b)
    requires AsSet(a) == AsSet(b)
    ensures a == b
  {
    EmptySetIsEmptySeq(a);
    EmptySetIsEmptySeq(b);
    if a != [] {
      assert a[0] in AsSet(a);
      assert b[0] in AsSet(b);
      HeadIsLeast(a, b[0]);
      HeadIsLeast(b, a[0]);
      LessTotal(a[0], b[0]);
      assert a[0] == b[0];
      TailDropsHead(a);
      TailDropsHead(b);
      SortedIsCanonical(a[1..], b[1..]);
    }
  }

  lemma EmptySetIsEmptySeq(a: seq<string>)
    ensures AsSet(a) == {} <==> a == []
  {
    if a != [] {
      assert a[0] in AsSet(a);
    }
  }

  lemma HeadIsLeast(a: seq<string>, x: string)
    requires StrictlySorted(a) && x in a
    ensures AtMost(a[0], x)
  {
    var i :| 0 <= i < |a| && a[i] == x;
    LessIrreflexive(x);
    if i > 0 {
      LessAsymmetric(a[0], a[i]);
    }
  }

  lemma TailDropsHead(a: seq<string>)
    requires StrictlySorted(a) && a != []
    ensures AsSet(a[1..]) == AsSet(a) - {a[0]}
  {
    LessIrreflexive(a[0]);
    assert a == [a[0]] + a[1..];
    forall x | x in a[1..] ensures x != a[0] {
      var i :| 0 <= i < |a[1..]| && a[1..][i] == x;
      assert a[i + 1] == x;
    }
  }
}

/** Comma-separated lists: joining as `Collectors.joining(",")` does, and a
    reference splitting of the joined text at every comma, empty fields kept. */
module CommaLists {

  /** `Collectors.joining(",")`: the elements in order, a comma between neighbours. */
  function JoinComma(items: seq<string>): string
  {
    if |items| == 0 then ""
    else if |items| == 1 then items[0]
    else items[0] + "," + JoinComma(items[1..])
  }

  /** Cuts a text at every comma; the result always has at least one field. */
  function Split(s: string): (fields: seq<string>)
    ensures |fields| >= 1
  {
    if |s| == 0 then [""]
    else
      var rest := Split(s[1..]);
      if s[0] == ',' then [""] + rest
      else [[s[0]] + rest[0]] + rest[1..]
  }

  ghost predicate NoComma(s: string)
  {
    ',' !in s
  }

  /** A comma-free prefix joins the first field of what follows it. */
  lemma {:induction false} SplitPrefix(a: string, b: string)
    requires NoComma(a)
    ensures Split(a + b) == [a + Split(b)[0]] + Split(b)[1..]
  {
    if |a| > 0 {
      var ab := a + b;
      assert ab[0] == a[0] && ab[0] != ',';
      assert ab[1..] == a[1..] + b;
      SplitPrefix(a[1..], b);
      var rest := Split(ab[1..]);
      assert rest[0] == a[1..] + Split(b)[0];
      assert [ab[0]] + rest[0] == a + Split(b)[0];
    } else {
      assert a + b == b;
      assert a + Split(b)[0] == Split(b)[0];
      assert [Split(b)[0]] + Split(b)[1..] == Split(b);
    }
  }

  /** A comma-free text is a single field, and a comma ends exactly one field. */
  lemma SplitField(a: string, b: string)
    requires NoComma(a)
    ensures Split(a) == [a]
    ensures Split(a + "," + b) == [a] + Split(b)
  {
    SplitPrefix(a, "");
    assert a + "" == a;
    SplitPrefix(a, "," + b);
    assert a + "," + b == a + ("," + b);
    assert ("," + b)[1..] == b;
  }

  /** Splitting undoes joining when no element holds a comma. */
  lemma {:induction false} SplitJoin(items: seq<string>)
    requires |items| >= 1
    requires forall i :: 0 <= i < |items| ==> NoComma(items[i])
    ensures Split(JoinComma(items)) == items
  {
    if |items| == 1 {
      SplitField(items[0], "");
    } else {
      SplitJoin(items[1..]);
      SplitField(items[0], JoinComma(items[1..]));
      assert [items[0]] + items[1..] == items;
    }
  }

  /** Joining two non-empty lists puts one comma between the two joined halves. */
  lemma {:induction false} JoinAppend(xs: seq<string>, ys: seq<string>)
    requires |xs| >= 1 && |ys| >= 1
    ensures JoinComma(xs + ys) == JoinComma(xs) + "," + JoinComma(ys)
  {
    if |xs| == 1 {
      assert (xs + ys)[1..] == ys;
    } else {
      assert (xs + ys)[1..] == xs[1..] + ys;
      JoinAppend(xs[1..], ys);
    }
  }

  /** A joined list of at least two elements holds a comma, and is therefore not empty. */
  lemma JoinHasComma(items: seq<string>)
    requires |items| >= 2
    ensures ',' in JoinComma(items)
  {
    var j := JoinComma(items);
    assert j[|items[0]|] == ',';
  }
}

/** Lists of strings stored as one string: joined with commas, split again by reading up to the next comma. */
module StringArray {
  /** Every item and a comma, and then the last comma taken off. */
  function WithCommas(items: seq<string>): string {
    if items == [] then "" else WithCommas(items[..|items| - 1]) + items[|items| - 1] + ","
  }

  function Joined(items: seq<string>): string {
    var s := WithCommas(items);
    if s == "" then "" else s[..|s| - 1]
  }

  method Join(items: seq<string>) returns (value: string)
    ensures value == Joined(items)
  {
    value := "";
    for i := 0 to |items|
      invariant value == WithCommas(items[..i])
    {
      value := value + items[i] + ",";
      assert items[..i + 1][..i] == items[..i];
    }
    assert items[..|items|] == items;
    if value != "" {
      value := value[..|value| - 1];
    }
  }

  /** Where the next item ends. */
  function NextComma(s: string): (k: nat)
    ensures k <= |s| && (k < |s| ==> s[k] == ',')
    ensures forall i | 0 <= i < k :: s[i] != ','
  {
    if s == "" || s[0] == ',' then 0 else 1 + NextComma(s[1..])
  }

  /** Reading items until the end of the stream: a comma at the very end starts no further item. */
  function Items(s: string): seq<string>
    decreases |s|
  {
    if s == "" then []
    else
      var k := NextComma(s);
      [s[..k]] + (if k < |s| then Items(s[k + 1..]) else [])
  }

  method Split(value: string) returns (items: seq<string>)
    ensures items == Items(value)
  {
    items := [];
    var rest := value;
    while rest != ""
      invariant items + Items(rest) == Items(value)
      decreases |rest|
    {
      var k := NextComma(rest);
      items := items + [rest[..k]];
      rest := if k < |rest| then rest[k + 1..] else "";
    }
  }

  // ---- round trip ----

  ghost predicate CommaFree(items: seq<string>) {
    forall item | item in items :: ',' !in item
  }

  /** Read from the front, the joined string is the first item, a comma and the joined rest. */
  lemma {:induction false} WithCommasFront(items: seq<string>)
    requires items != []
    ensures WithCommas(items) == items[0] + "," + WithCommas(items[1..])
  {
    if |items| > 1 {
      var n := |items| - 1;
      var front, rest := items[..n], items[1..];
      WithCommasFront(front);
      assert rest[..n - 1] == front[1..] && rest[n - 1] == items[n];
      assert WithCommas(rest) == WithCommas(front[1..]) + items[n] + ",";
    }
  }

  lemma JoinedFront(items: seq<string>)
    requires |items| > 1
    ensures Joined(items) == items[0] + "," + Joined(items[1..])
  {
    WithCommasFront(items);
    WithCommasFront(items[1..]);
  }

  lemma JoinedOne(item: string)
    ensures Joined([item]) == item
  {
    WithCommasFront([item]);
    assert [item][1..] == [];
  }

  lemma ItemsStep(a: string, rest: string)
    requires ',' !in a
    ensures Items(a + "," + rest) == [a] + Items(rest)
  {
    var s := a + "," + rest;
    assert forall i | 0 <= i < |a| :: s[i] == a[i];
    assert s[|a|] == ',' && NextComma(s) == |a|;
    assert s[..|a|] == a && s[|a| + 1..] == rest;
  }

  lemma ItemsOne(a: string)
    requires ',' !in a && a != ""
    ensures Items(a) == [a]
  {
    assert NextComma(a) == |a| && a[..|a|] == a;
  }

  /** What comes out never holds a comma. */
  lemma {:induction false} ItemsCommaFree(s: string)
    ensures CommaFree(Items(s))
    decreases |s|
  {
    if s != "" {
      var k := NextComma(s);
      assert ',' !in s[..k];
      if k < |s| {
        ItemsCommaFree(s[k + 1..]);
        assert Items(s) == [s[..k]] + Items(s[k + 1..]);
      }
    }
  }

  lemma {:induction false} SplitJoined(items: seq<string>)
    requires CommaFree(items) && (items == [] || items[|items| - 1] != "")
    ensures Items(Joined(items)) == items
    decreases |items|
  {
    if |items| == 1 {
      JoinedOne(items[0]);
      assert items == [items[0]];
      ItemsOne(items[0]);
    } else if |items| > 1 {
      JoinedFront(items);
      ItemsStep(items[0], Joined(items[1..]));
      SplitJoined(items[1..]);
    }
  }

  /** A joined list whose last item is empty loses an item. */
  lemma {:induction false} EmptyLastLost(items: seq<string>)
    requires CommaFree(items) && items != [] && items[|items| - 1] == ""
    ensures |Items(Joined(items))| == |items| - 1
    decreases |items|
  {
    if |items| == 1 {
      JoinedOne("");
      assert items == [""];
    } else {
      JoinedFront(items);
      ItemsStep(items[0], Joined(items[1..]));
      EmptyLastLost(items[1..]);
    }
  }

  /** Splitting gives the joined list back exactly when no item holds a comma and the last one, if any, is not empty. */
  lemma RoundTripIff(items: seq<string>)
    ensures Items(Joined(items)) == items <==> CommaFree(items) && (items == [] || items[|items| - 1] != "")
  {
    ItemsCommaFree(Joined(items));
    if CommaFree(items) {
      if items == [] || items[|items| - 1] != "" {
        SplitJoined(items);
      } else {
        EmptyLastLost(items);
      }
    }
  }
}

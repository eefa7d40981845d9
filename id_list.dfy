/**
 * A tag's membership list as the Api class stores it in `photo_id_list`: the
 * object IDs separated by commas, with a trailing comma. Parsing is
 * explode(','); rendering (setTagItems) is implode(',') plus a trailing comma
 * followed by one pass of str_replace(',,', ','); manipulateItemOnTag edits the
 * exploded array between the two.
 */
module IdList {
  import opened Wrappers

  predicate CommaFree(items: seq<string>) {
    forall i :: 0 <= i < |items| ==> ',' !in items[i]
  }

  /** explode(',', $s): never empty; [""] for "". */
  function Explode(s: string): (fields: seq<string>)
    ensures |fields| >= 1
    decreases |s|
  {
    if s == [] then [""]
    else if s[0] == ',' then [""] + Explode(s[1..])
    else
      var rest := Explode(s[1..]);
      [[s[0]] + rest[0]] + rest[1..]
  }

  /** No field of explode(',', ...) holds a comma. */
  lemma {:induction false} ExplodeCommaFree(s: string)
    ensures CommaFree(Explode(s))
    decreases |s|
  {
    if s != [] {
      ExplodeCommaFree(s[1..]);
      var rest := Explode(s[1..]);
      if s[0] != ',' {
        var f := Explode(s);
        forall i | 0 <= i < |f| ensures ',' !in f[i] {
          if i == 0 {
            assert f[0] == [s[0]] + rest[0];
          } else {
            assert f[i] == rest[i];
          }
        }
      } else {
        var f := Explode(s);
        forall i | 0 <= i < |f| ensures ',' !in f[i] {
          if i > 0 {
            assert f[i] == rest[i - 1];
          }
        }
      }
    }
  }

  /** implode(',', $items). */
  function Implode(items: seq<string>): string {
    if |items| == 0 then ""
    else if |items| == 1 then items[0]
    else items[0] + "," + Implode(items[1..])
  }

  /** One left-to-right, non-overlapping pass of str_replace(',,', ',', $s). */
  function CollapseCommas(s: string): (r: string)
    ensures |r| <= |s| && (r == [] <==> s == [])
    ensures s != [] ==> r[0] == s[0] && r[|r| - 1] == s[|s| - 1]
  {
    if |s| >= 2 && s[0] == ',' && s[1] == ',' then "," + CollapseCommas(s[2..])
    else if s == [] then []
    else [s[0]] + CollapseCommas(s[1..])
  }

  /** The string setTagItems writes for an item array. */
  function Render(items: seq<string>): string {
    CollapseCommas(Implode(items) + ",")
  }

  /** `s` contains ",,". */
  predicate HasDoubleComma(s: string) {
    |s| >= 2 && ((s[0] == ',' && s[1] == ',') || HasDoubleComma(s[1..]))
  }

  /** `s` contains ",,,". */
  predicate HasTripleComma(s: string) {
    |s| >= 3 && ((s[0] == ',' && s[1] == ',' && s[2] == ',') || HasTripleComma(s[1..]))
  }

  predicate StartsWithTwoCommas(s: string) {
    |s| >= 2 && s[0] == ',' && s[1] == ','
  }

  /** The fields getItemTagMap indexes, by its strlen > 0 test: explode's output without the empty strings. */
  function NonEmpty(items: seq<string>): (r: seq<string>)
    ensures forall i :: 0 <= i < |r| ==> r[i] != ""
    ensures forall x :: x != "" ==> multiset(r)[x] == multiset(items)[x]
  {
    if items == [] then []
    else
      assert items == [items[0]] + items[1..];
      (if items[0] == "" then [] else [items[0]]) + NonEmpty(items[1..])
  }

  /** array_search($x, $items) with string equality: the first index holding x, or false. */
  function Search(items: seq<string>, x: string): (k: Option<nat>)
    ensures k.Some? ==> k.value < |items| && items[k.value] == x && x !in items[..k.value]
    ensures k.None? <==> x !in items
  {
    if items == [] then None
    else if items[0] == x then Some(0)
    else match Search(items[1..], x)
      case None => None
      case Some(k) => assert items[1..][..k] == items[1..k + 1]; Some(k + 1)
  }

  /** The edit manipulateItemOnTag applies to the exploded list: 'add' appends x unless a copy is
      found, 'remove' unsets the first copy, anything else leaves the list as it is. */
  function Edit(items: seq<string>, whatToDo: string, x: string): seq<string> {
    var k := Search(items, x);
    if whatToDo == "add" then (if k.None? then items + [x] else items)
    else if whatToDo == "remove" then (if k.Some? then items[..k.value] + items[k.value + 1..] else items)
    else items
  }

  /** How many copies of x an edit leaves when the list held `c`. */
  function EditedCount(c: nat, whatToDo: string): nat {
    if whatToDo == "add" then (if c == 0 then 1 else c)
    else if whatToDo == "remove" then (if c == 0 then 0 else c - 1)
    else c
  }

  /** 'add' never makes a duplicate, 'remove' takes away one copy, and no other item is touched. */
  lemma EditCounts(items: seq<string>, whatToDo: string, x: string, y: string)
    ensures multiset(Edit(items, whatToDo, x))[y] ==
      if y == x then EditedCount(multiset(items)[x], whatToDo) else multiset(items)[y]
  {
    var k := Search(items, x);
    if whatToDo == "add" && k.None? {
      assert multiset(items + [x]) == multiset(items) + multiset{x};
    } else if whatToDo == "remove" && k.Some? {
      RemoveAtCount(items, k.value);
    }
  }

  /** Editing a comma-free list with a comma-free ID keeps it comma-free. */
  lemma EditCommaFree(items: seq<string>, whatToDo: string, x: string)
    requires CommaFree(items) && ',' !in x
    ensures CommaFree(Edit(items, whatToDo, x))
  {
    var e := Edit(items, whatToDo, x);
    forall j | 0 <= j < |e| ensures ',' !in e[j] {
      EditCounts(items, whatToDo, x, e[j]);
      assert e[j] in multiset(e);
      if e[j] != x {
        assert e[j] in multiset(items);
        var i :| 0 <= i < |items| && items[i] == e[j];
      }
    }
  }

  /** Unsetting one index takes away one copy of its element. */
  lemma RemoveAtCount(items: seq<string>, k: nat)
    requires k < |items|
    ensures multiset(items[..k] + items[k + 1..]) == multiset(items) - multiset{items[k]}
  {
    assert items == items[..k] + [items[k]] + items[k + 1..];
  }

  /** 'remove' keeps every other element in its relative order. */
  lemma RemoveKeepsOrder(items: seq<string>, x: string, i: nat)
    requires x in items && i < |items| - 1
    ensures var r := Edit(items, "remove", x); var k := Search(items, x).value;
      |r| == |items| - 1 && r[i] == items[if i < k then i else i + 1]
  {
  }

  lemma {:induction false} ImplodeExplode(s: string)
    ensures Implode(Explode(s)) == s
    decreases |s|
  {
    if s != [] {
      ImplodeExplode(s[1..]);
      if s[0] == ',' {
        assert s == "," + s[1..];
      } else {
        var rest := Explode(s[1..]);
        if |rest| > 1 {
          assert Implode(rest) == rest[0] + "," + Implode(rest[1..]);
          assert s == [s[0]] + s[1..];
        }
      }
    }
  }

  lemma {:induction false} ExplodeOfCommaFree(a: string)
    requires ',' !in a
    ensures Explode(a) == [a]
    decreases |a|
  {
    if a != [] {
      ExplodeOfCommaFree(a[1..]);
      assert a == [a[0]] + a[1..];
    }
  }

  /** explode on a string with a known first character. */
  lemma ExplodeCons(c: char, t: string)
    ensures Explode([c] + t) ==
      if c == ',' then [""] + Explode(t) else [[c] + Explode(t)[0]] + Explode(t)[1..]
  {
    assert ([c] + t)[0] == c && ([c] + t)[1..] == t;
  }

  /** A comma after a comma-free field ends that field. */
  lemma {:induction false} ExplodeAfterField(a: string, b: string)
    requires ',' !in a
    ensures Explode(a + "," + b) == [a] + Explode(b)
    decreases |a|
  {
    if a == [] {
      assert a + "," + b == [','] + b;
      ExplodeCons(',', b);
    } else {
      var t := a[1..];
      ExplodeAfterField(t, b);
      assert a + "," + b == [a[0]] + (t + "," + b);
      ExplodeCons(a[0], t + "," + b);
      assert a == [a[0]] + t;
    }
  }

  /** implode of one more item. */
  lemma {:induction false} ImplodeSnoc(items: seq<string>, x: string)
    requires items != []
    ensures Implode(items + [x]) == Implode(items) + "," + x
    decreases |items|
  {
    var s := items + [x];
    assert s[0] == items[0] && s[1..] == items[1..] + [x];
    if |items| > 1 {
      ImplodeSnoc(items[1..], x);
    }
  }

  lemma {:induction false} ExplodeImplode(items: seq<string>)
    requires items != [] && CommaFree(items)
    ensures Explode(Implode(items)) == items
    decreases |items|
  {
    ExplodeOfCommaFree(items[0]);
    if |items| > 1 {
      ExplodeImplode(items[1..]);
      ExplodeAfterField(items[0], Implode(items[1..]));
    }
  }

  lemma {:induction false} NonEmptyAppend(a: seq<string>, b: seq<string>)
    ensures NonEmpty(a + b) == NonEmpty(a) + NonEmpty(b)
    decreases |a|
  {
    if a != [] {
      NonEmptyAppend(a[1..], b);
      assert (a + b)[0] == a[0] && (a + b)[1..] == a[1..] + b;
      var h := if a[0] == "" then [] else [a[0]];
      assert NonEmpty(a + b) == h + NonEmpty(a[1..] + b);
      assert NonEmpty(a) == h + NonEmpty(a[1..]);
    } else {
      assert a + b == b;
    }
  }

  /** The collapse keeps the first field and, among the others, drops only empty ones. */
  lemma {:induction false} CollapseFields(s: string)
    ensures Explode(CollapseCommas(s))[0] == Explode(s)[0]
    ensures NonEmpty(Explode(CollapseCommas(s))[1..]) == NonEmpty(Explode(s)[1..])
    decreases |s|
  {
    var c := CollapseCommas(s);
    if |s| >= 2 && s[0] == ',' && s[1] == ',' {
      var t := s[2..];
      CollapseFields(t);
      assert c[1..] == CollapseCommas(t);
      assert s[1..][1..] == t;
      var et := Explode(t);
      assert Explode(s)[1..] == [""] + et;
      assert Explode(c)[1..] == Explode(CollapseCommas(t));
      assert et == [et[0]] + et[1..];
      var ec := Explode(CollapseCommas(t));
      assert ec == [ec[0]] + ec[1..];
    } else if s != [] {
      var t := s[1..];
      CollapseFields(t);
      assert c[1..] == CollapseCommas(t);
      if s[0] == ',' {
        var et := Explode(t);
        var ec := Explode(CollapseCommas(t));
        assert et == [et[0]] + et[1..];
        assert ec == [ec[0]] + ec[1..];
      }
    }
  }

  lemma NonEmptyOfCollapse(s: string)
    ensures NonEmpty(Explode(CollapseCommas(s))) == NonEmpty(Explode(s))
  {
    CollapseFields(s);
    var ec, es := Explode(CollapseCommas(s)), Explode(s);
    assert ec == [ec[0]] + ec[1..];
    assert es == [es[0]] + es[1..];
  }

  /** Parsing a rendered list and dropping empty fields gives back the non-empty items, in order. */
  lemma RenderParse(items: seq<string>)
    requires CommaFree(items)
    ensures NonEmpty(Explode(Render(items))) == NonEmpty(items)
  {
    var j := Implode(items) + ",";
    NonEmptyOfCollapse(j);
    if items == [] {
      assert Explode(j) == ["", ""];
    } else {
      ImplodeSnoc(items, "");
      assert j == Implode(items + [""]);
      ExplodeImplode(items + [""]);
      NonEmptyAppend(items, [""]);
    }
  }

  /** Hence a non-empty item occurs in the persisted list exactly as often as in the array. */
  lemma RenderCount(items: seq<string>, x: string)
    requires CommaFree(items) && x != ""
    ensures multiset(Explode(Render(items)))[x] == multiset(items)[x]
  {
    RenderParse(items);
  }

  /** The persisted list always ends with a comma. */
  lemma RenderEndsWithComma(items: seq<string>)
    ensures var r := Render(items); |r| >= 1 && r[|r| - 1] == ','
  {
  }

  /** One collapse pass removes every ",," exactly when the input has no run of three commas. */
  lemma {:induction false} CollapseLeavesNoDouble(s: string)
    ensures HasDoubleComma(CollapseCommas(s)) <==> HasTripleComma(s)
    decreases |s|
  {
    var c := CollapseCommas(s);
    if |s| >= 2 && s[0] == ',' && s[1] == ',' {
      var t := s[2..];
      CollapseLeavesNoDouble(t);
      assert c == "," + CollapseCommas(t);
      assert s[1..][1..] == t;
      assert c[1..] == CollapseCommas(t);
    } else if s != [] {
      var t := s[1..];
      CollapseLeavesNoDouble(t);
      assert c[1..] == CollapseCommas(t);
    }
  }

  /** A run of three commas in a + "," + j, with a free of commas, lies inside j or at its start. */
  lemma {:induction false} JoinTriple(a: string, j: string)
    requires ',' !in a
    ensures HasTripleComma(a + "," + j) <==> StartsWithTwoCommas(j) || HasTripleComma(j)
    decreases |a|
  {
    var s := a + "," + j;
    if a == [] {
      assert s == "," + j && s[1..] == j;
    } else {
      JoinTriple(a[1..], j);
      assert s[1..] == a[1..] + "," + j;
    }
  }

  /** No two adjacent empty items, anywhere. */
  predicate NoEmptyPair(items: seq<string>) {
    forall i :: 0 <= i < |items| - 1 ==> items[i] != "" || items[i + 1] != ""
  }

  /** No two adjacent empty items after the first one. */
  predicate NoEmptyPairAfterFirst(items: seq<string>) {
    forall i :: 1 <= i < |items| - 1 ==> items[i] != "" || items[i + 1] != ""
  }

  lemma {:induction false} JoinedNoTriple(items: seq<string>)
    requires items != [] && CommaFree(items) && NoEmptyPair(items)
    ensures !HasTripleComma(Implode(items) + ",") && !StartsWithTwoCommas(Implode(items) + ",")
    decreases |items|
  {
    var a := items[0];
    assert ',' !in a;
    if |items| == 1 {
      JoinTriple(a, "");
      assert Implode(items) + "," == a + "," + "";
    } else {
      var rest := items[1..];
      var jr := Implode(rest) + ",";
      JoinedNoTriple(rest);
      JoinTriple(a, jr);
      assert Implode(items) + "," == a + "," + jr;
      if a == "" {
        assert rest[0] != "";
        if |rest| == 1 {
          assert jr[0] == rest[0][0];
        } else {
          assert jr[0] == rest[0][0];
        }
      }
    }
  }

  /** The arrays manipulateItemOnTag hands over never make a run of three commas, so no ",," is saved. */
  lemma RenderNoDouble(items: seq<string>)
    requires CommaFree(items) && NoEmptyPairAfterFirst(items)
    ensures !HasDoubleComma(Render(items))
  {
    var j := Implode(items) + ",";
    CollapseLeavesNoDouble(j);
    if |items| == 1 {
      JoinTriple(items[0], "");
      assert j == items[0] + "," + "";
    } else if |items| > 1 {
      JoinedNoTriple(items[1..]);
      JoinTriple(items[0], Implode(items[1..]) + ",");
      assert j == items[0] + "," + (Implode(items[1..]) + ",");
    }
  }

  /** A list without ",," has empty fields only at its two ends. */
  lemma {:induction false} ExplodeInnerNonEmpty(s: string)
    requires !HasDoubleComma(s)
    ensures forall i :: 1 <= i < |Explode(s)| - 1 ==> Explode(s)[i] != ""
    decreases |s|
  {
    if s != [] {
      var t := s[1..];
      assert !HasDoubleComma(t);
      ExplodeInnerNonEmpty(t);
      var et := Explode(t);
      if s[0] != ',' {
        var f := Explode(s);
        assert f == [[s[0]] + et[0]] + et[1..];
        forall i | 1 <= i < |f| - 1 ensures f[i] != "" {
          assert f[i] == et[i];
        }
      } else {
        assert t == [] || t[0] != ',';
        assert |et| >= 2 ==> et[0] != "";
        var f := Explode(s);
        assert f == [""] + et;
        forall i | 1 <= i < |f| - 1 ensures f[i] != "" {
          assert f[i] == et[i - 1];
        }
      }
    }
  }

  /** If the stored list has no ",,", then after any add or remove of a proper ID the saved one has none. */
  lemma PersistKeepsNoDouble(s: string, whatToDo: string, x: string)
    requires !HasDoubleComma(s) && x != "" && ',' !in x
    ensures !HasDoubleComma(Render(Edit(Explode(s), whatToDo, x)))
  {
    var f := Explode(s);
    ExplodeInnerNonEmpty(s);
    ExplodeCommaFree(s);
    var e := Edit(f, whatToDo, x);
    assert CommaFree(e);
    assert NoEmptyPairAfterFirst(e) by {
      var k := Search(f, x);
      if whatToDo == "remove" && k.Some? {
        forall i | 1 <= i < |e| - 1 ensures e[i] != "" {
          if i < k.value { assert e[i] == f[i]; } else { assert e[i] == f[i + 1]; }
        }
      } else if whatToDo == "add" && k.None? {
        forall i | 1 <= i < |e| - 1 ensures e[i] != "" || e[i + 1] != "" {
          if i + 1 == |f| { assert e[i + 1] == x; } else { assert e[i] == f[i]; }
        }
      } else {
        assert e == f;
      }
    }
    RenderNoDouble(e);
  }
}

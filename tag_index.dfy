/** The TagTable rows and the inverted index getItemTagMap builds from them: for every object
    ID, the names of the tags whose membership list holds it. */
module TagIndex {
  import opened IdList

  /** One TagTable row: its numeric id, its unique name, the comma-separated membership list
      and the creation time. */
  datatype Tag = Tag(id: int, name: string, photoIdList: string, timeCreated: int)

  /** The fields of a tag's membership list, as explode(',', ...) yields them. */
  function Fields(t: Tag): seq<string> {
    Explode(t.photoIdList)
  }

  /** How many times tag t lists the object ID x. */
  function Listings(t: Tag, x: string): nat {
    multiset(Fields(t))[x]
  }

  /** The in-memory index: object ID to tag names. */
  type Index = map<string, seq<string>>

  /** The entry for k, or the empty list when the index has none. */
  function Lookup(m: Index, k: string): (r: seq<string>)
    ensures k !in m ==> r == []
  {
    if k in m then m[k] else []
  }

  /** The inner loop of getItemTagMap: every non-empty field gets `name` appended to its entry. */
  function IndexFields(m: Index, fields: seq<string>, name: string): Index
    decreases |fields|
  {
    if fields == [] then m
    else
      var m' := IndexFields(m, fields[..|fields| - 1], name);
      var f := fields[|fields| - 1];
      if |f| > 0 then m'[f := Lookup(m', f) + [name]] else m'
  }

  /** Indexing one more field of a list: the step getItemTagMap's inner loop takes. */
  lemma IndexFieldsPrefix(m: Index, fields: seq<string>, j: nat, name: string)
    requires j < |fields|
    ensures var m' := IndexFields(m, fields[..j], name);
      IndexFields(m, fields[..j + 1], name) ==
        if |fields[j]| > 0 then m'[fields[j] := Lookup(m', fields[j]) + [name]] else m'
  {
    assert fields[..j + 1][..j] == fields[..j];
  }

  /** getItemTagMap: the index of all tags, built in table order. */
  function ItemTagMap(tags: seq<Tag>): Index
    decreases |tags|
  {
    if tags == [] then map[]
    else
      var last := tags[|tags| - 1];
      IndexFields(ItemTagMap(tags[..|tags| - 1]), Fields(last), last.name)
  }

  /** Indexing one more row: the step getItemTagMap's outer loop takes. */
  lemma ItemTagMapPrefix(tags: seq<Tag>, i: nat)
    requires i < |tags|
    ensures ItemTagMap(tags[..i + 1]) == IndexFields(ItemTagMap(tags[..i]), Fields(tags[i]), tags[i].name)
  {
    assert tags[..i + 1][..i] == tags[..i];
  }

  /** k copies of a name. */
  function Copies(name: string, k: nat): (r: seq<string>)
    ensures |r| == k && forall i :: 0 <= i < k ==> r[i] == name
  {
    if k == 0 then [] else Copies(name, k - 1) + [name]
  }

  /** Reference definition of an index entry: the names of the tags that list x, in table
      order, once per listing. */
  function TagsListing(tags: seq<Tag>, x: string): seq<string>
    decreases |tags|
  {
    if tags == [] then []
    else
      var last := tags[|tags| - 1];
      TagsListing(tags[..|tags| - 1], x) + Copies(last.name, Listings(last, x))
  }

  /** Some row of the table lists x. */
  predicate Listed(tags: seq<Tag>, x: string) {
    exists i :: 0 <= i < |tags| && x in Fields(tags[i])
  }

  lemma {:induction false} CopiesCount(name: string, k: nat, n: string)
    ensures multiset(Copies(name, k))[n] == if n == name then k else 0
  {
    if k > 0 {
      CopiesCount(name, k - 1, n);
      assert Copies(name, k) == Copies(name, k - 1) + [name];
    }
  }

  /** The keys one tag's fields add are its non-empty fields. */
  lemma {:induction false} IndexFieldsKeys(m: Index, fields: seq<string>, name: string, k: string)
    ensures k in IndexFields(m, fields, name) <==> k in m || (k != "" && k in fields)
    decreases |fields|
  {
    if fields != [] {
      var init := fields[..|fields| - 1];
      assert fields == init + [fields[|fields| - 1]];
      IndexFieldsKeys(m, init, name, k);
    }
  }

  /** One tag's fields add one copy of the tag's name per listing, and the empty field is
      never indexed. */
  lemma {:induction false} IndexFieldsEntry(m: Index, fields: seq<string>, name: string, k: string)
    ensures Lookup(IndexFields(m, fields, name), k) ==
      Lookup(m, k) + (if k == "" then [] else Copies(name, multiset(fields)[k]))
    decreases |fields|
  {
    if fields != [] {
      var init := fields[..|fields| - 1];
      var f := fields[|fields| - 1];
      assert fields == init + [f];
      IndexFieldsEntry(m, init, name, k);
      var m' := IndexFields(m, init, name);
      var r := IndexFields(m, fields, name);
      assert r == if |f| > 0 then m'[f := Lookup(m', f) + [name]] else m';
      var c := multiset(init)[k];
      if f == k {
        assert multiset(fields)[k] == c + 1;
        if k != "" {
          assert Lookup(r, k) == Lookup(m', k) + [name];
          assert Copies(name, c + 1) == Copies(name, c) + [name];
        }
      } else {
        assert multiset(fields)[k] == c;
        assert Lookup(r, k) == Lookup(m', k);
      }
    }
  }

  /** Listed, one row at a time. */
  lemma ListedSnoc(tags: seq<Tag>, x: string)
    requires tags != []
    ensures Listed(tags, x) <==> Listed(tags[..|tags| - 1], x) || x in Fields(tags[|tags| - 1])
  {
    var init := tags[..|tags| - 1];
    if Listed(tags, x) && x !in Fields(tags[|tags| - 1]) {
      var i :| 0 <= i < |tags| && x in Fields(tags[i]);
      assert i < |init| && init[i] == tags[i];
    }
    if Listed(init, x) {
      var i :| 0 <= i < |init| && x in Fields(init[i]);
      assert tags[i] == init[i];
    }
  }

  /** The index, one row at a time: the last row adds its non-empty fields as keys and one
      copy of its name per listing. */
  lemma ItemTagMapSnoc(tags: seq<Tag>, k: string)
    requires tags != []
    ensures var m := ItemTagMap(tags[..|tags| - 1]);
      var last := tags[|tags| - 1];
      (k in ItemTagMap(tags) <==> k in m || (k != "" && k in Fields(last))) &&
      Lookup(ItemTagMap(tags), k) == Lookup(m, k) + (if k == "" then [] else Copies(last.name, Listings(last, k)))
  {
    var m := ItemTagMap(tags[..|tags| - 1]);
    var last := tags[|tags| - 1];
    assert ItemTagMap(tags) == IndexFields(m, Fields(last), last.name);
    IndexFieldsKeys(m, Fields(last), last.name, k);
    IndexFieldsEntry(m, Fields(last), last.name, k);
  }

  /** Every entry of the index is the reference listing, and the keys are exactly the
      non-empty object IDs some tag lists. */
  lemma {:induction false} ItemTagMapEntry(tags: seq<Tag>, k: string)
    ensures k in ItemTagMap(tags) <==> k != "" && Listed(tags, k)
    ensures k != "" ==> Lookup(ItemTagMap(tags), k) == TagsListing(tags, k)
    decreases |tags|
  {
    if tags != [] {
      var init := tags[..|tags| - 1];
      var last := tags[|tags| - 1];
      ItemTagMapEntry(init, k);
      ListedSnoc(tags, k);
      ItemTagMapSnoc(tags, k);
      assert TagsListing(tags, k) == TagsListing(init, k) + Copies(last.name, Listings(last, k));
    }
  }

  /** Some row named n lists x. */
  predicate ListedUnder(tags: seq<Tag>, x: string, n: string) {
    exists i :: 0 <= i < |tags| && tags[i].name == n && x in Fields(tags[i])
  }

  lemma ListedUnderSnoc(tags: seq<Tag>, x: string, n: string)
    requires tags != []
    ensures ListedUnder(tags, x, n) <==>
      ListedUnder(tags[..|tags| - 1], x, n) || (tags[|tags| - 1].name == n && x in Fields(tags[|tags| - 1]))
  {
    var init := tags[..|tags| - 1];
    if ListedUnder(tags, x, n) {
      var i :| 0 <= i < |tags| && tags[i].name == n && x in Fields(tags[i]);
      if i < |init| {
        assert init[i] == tags[i];
      }
    }
    if ListedUnder(init, x, n) {
      var i :| 0 <= i < |init| && init[i].name == n && x in Fields(init[i]);
      assert tags[i] == init[i];
    }
  }

  /** The names in an entry are exactly the tags that list the object ID. */
  lemma {:induction false} TagsListingNames(tags: seq<Tag>, x: string, n: string)
    ensures n in TagsListing(tags, x) <==> ListedUnder(tags, x, n)
    decreases |tags|
  {
    if tags != [] {
      var init := tags[..|tags| - 1];
      var last := tags[|tags| - 1];
      TagsListingNames(init, x, n);
      ListedUnderSnoc(tags, x, n);
      CopiesCount(last.name, Listings(last, x), n);
      var s := TagsListing(tags, x);
      assert s == TagsListing(init, x) + Copies(last.name, Listings(last, x));
      assert multiset(s)[n] == multiset(TagsListing(init, x))[n] + multiset(Copies(last.name, Listings(last, x)))[n];
    }
  }

  /** The count of a name in an entry, one row at a time. */
  lemma TagsListingSnoc(tags: seq<Tag>, x: string, n: string)
    requires tags != []
    ensures var last := tags[|tags| - 1];
      multiset(TagsListing(tags, x))[n] ==
        multiset(TagsListing(tags[..|tags| - 1], x))[n] + (if last.name == n then Listings(last, x) else 0)
  {
    var last := tags[|tags| - 1];
    CopiesCount(last.name, Listings(last, x), n);
    assert TagsListing(tags, x) == TagsListing(tags[..|tags| - 1], x) + Copies(last.name, Listings(last, x));
  }

  /** When no other row shares its name, an entry holds a tag's name as often as that tag
      lists the ID. */
  lemma {:induction false} TagsListingCounts(tags: seq<Tag>, x: string, i: nat)
    requires i < |tags|
    requires forall j :: 0 <= j < |tags| && j != i ==> tags[j].name != tags[i].name
    ensures multiset(TagsListing(tags, x))[tags[i].name] == Listings(tags[i], x)
    decreases |tags|
  {
    var init := tags[..|tags| - 1];
    if i < |init| {
      assert init[i] == tags[i];
      forall j | 0 <= j < |init| && j != i ensures init[j].name != init[i].name {
        assert init[j] == tags[j];
      }
      TagsListingCounts(init, x, i);
      TagsListingSnoc(tags, x, tags[i].name);
    } else {
      TagsListingLast(tags, x);
    }
  }

  /** The last row's name, carried by no earlier row, counts as often as that row lists x. */
  lemma TagsListingLast(tags: seq<Tag>, x: string)
    requires tags != []
    requires forall j :: 0 <= j < |tags| - 1 ==> tags[j].name != tags[|tags| - 1].name
    ensures multiset(TagsListing(tags, x))[tags[|tags| - 1].name] == Listings(tags[|tags| - 1], x)
  {
    var init := tags[..|tags| - 1];
    var n := tags[|tags| - 1].name;
    forall j | 0 <= j < |init| ensures init[j].name != n {
      assert init[j] == tags[j];
    }
    TagsListingAbsent(init, x, n);
    TagsListingSnoc(tags, x, n);
  }

  /** A name no row carries never appears in an entry. */
  lemma {:induction false} TagsListingAbsent(tags: seq<Tag>, x: string, n: string)
    requires forall i :: 0 <= i < |tags| ==> tags[i].name != n
    ensures multiset(TagsListing(tags, x))[n] == 0
    decreases |tags|
  {
    if tags != [] {
      var init := tags[..|tags| - 1];
      var last := tags[|tags| - 1];
      assert forall j :: 0 <= j < |init| ==> init[j].name != n by {
        forall j | 0 <= j < |init| ensures init[j].name != n {
          assert init[j] == tags[j];
        }
      }
      TagsListingAbsent(init, x, n);
      TagsListingSnoc(tags, x, n);
    }
  }

  /** An object ID no row lists has an empty entry. */
  lemma {:induction false} TagsListingUnlisted(tags: seq<Tag>, x: string)
    requires !Listed(tags, x)
    ensures TagsListing(tags, x) == []
    decreases |tags|
  {
    if tags != [] {
      var init := tags[..|tags| - 1];
      assert !Listed(init, x);
      TagsListingUnlisted(init, x);
      assert x !in Fields(tags[|tags| - 1]);
    }
  }

  /** An entry depends only on the rows' names and their counts of the ID: a table that keeps
      both for the old rows and appends rows not listing the ID has the same entry. */
  lemma {:induction false} TagsListingKept(a: seq<Tag>, b: seq<Tag>, y: string)
    requires |a| <= |b|
    requires forall i :: 0 <= i < |a| ==> b[i].name == a[i].name && Listings(b[i], y) == Listings(a[i], y)
    requires forall i :: |a| <= i < |b| ==> Listings(b[i], y) == 0
    ensures TagsListing(b, y) == TagsListing(a, y)
    decreases |b|
  {
    if b != [] {
      var last := b[|b| - 1];
      assert TagsListing(b, y) == TagsListing(b[..|b| - 1], y) + Copies(last.name, Listings(last, y));
      if |a| < |b| {
        assert Copies(last.name, Listings(last, y)) == [];
        TagsListingKept(a, b[..|b| - 1], y);
      } else {
        assert Copies(last.name, Listings(last, y)) == Copies(a[|a| - 1].name, Listings(a[|a| - 1], y));
        TagsListingKept(a[..|a| - 1], b[..|b| - 1], y);
      }
    }
  }

  /** Every key of the index is a well-formed membership entry: non-empty and free of commas,
      with a non-empty list of names. */
  lemma IndexKeys(tags: seq<Tag>, k: string)
    requires k in ItemTagMap(tags)
    ensures k != "" && ',' !in k && ItemTagMap(tags)[k] != []
  {
    ItemTagMapEntry(tags, k);
    var i :| 0 <= i < |tags| && k in Fields(tags[i]);
    var j :| 0 <= j < |Fields(tags[i])| && Fields(tags[i])[j] == k;
    ExplodeCommaFree(tags[i].photoIdList);
    assert ',' !in Fields(tags[i])[j];
    TagsListingNames(tags, k, tags[i].name);
  }

  /** A freshly created tag, whose list is empty, leaves the index unchanged. */
  lemma AppendEmptyTag(tags: seq<Tag>, t: Tag)
    requires t.photoIdList == ""
    ensures ItemTagMap(tags + [t]) == ItemTagMap(tags)
  {
    assert (tags + [t])[..|tags|] == tags;
    assert Fields(t) == [""];
    assert IndexFields(ItemTagMap(tags), [""], t.name) == ItemTagMap(tags) by {
      assert [""][..0] == [];
    }
  }

  /** The index depends only on the names and the lists of the rows, not their ids or times. */
  lemma {:induction false} IndexIgnoresIds(a: seq<Tag>, b: seq<Tag>)
    requires |a| == |b|
    requires forall i :: 0 <= i < |a| ==> a[i].name == b[i].name && a[i].photoIdList == b[i].photoIdList
    ensures ItemTagMap(a) == ItemTagMap(b)
    decreases |a|
  {
    if a != [] {
      IndexIgnoresIds(a[..|a| - 1], b[..|b| - 1]);
    }
  }
}

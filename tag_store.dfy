/** The writes to TagTable: createTag, setTagItems, manipulateItemOnTag and the reconciliation
    setItemTags performs, each as a function from the old table to the new one. */
module TagStore {
  import opened Wrappers
  import opened IdList
  import opened TagIndex

  /** The UNIQUE constraint on TagTable.name. */
  predicate NamesUnique(tags: seq<Tag>) {
    forall i, j :: 0 <= i < j < |tags| ==> tags[i].name != tags[j].name
  }

  /** The PRIMARY KEY on TagTable.id. */
  predicate IdsUnique(tags: seq<Tag>) {
    forall i, j :: 0 <= i < j < |tags| ==> tags[i].id != tags[j].id
  }

  predicate TableValid(tags: seq<Tag>) {
    NamesUnique(tags) && IdsUnique(tags)
  }

  /** Some row carries the name n. */
  predicate Named(tags: seq<Tag>, n: string) {
    exists i :: 0 <= i < |tags| && tags[i].name == n
  }

  /** `SELECT * FROM TagTable WHERE name = ?`: the position of the first row with that name. */
  function FindTag(tags: seq<Tag>, name: string): (r: Option<nat>)
    ensures r.Some? ==> r.value < |tags| && tags[r.value].name == name
    ensures r.None? <==> !Named(tags, name)
  {
    if tags == [] then None
    else if tags[0].name == name then Some(0)
    else
      var r := FindTag(tags[1..], name);
      assert Named(tags, name) ==> Named(tags[1..], name) by {
        if Named(tags, name) {
          var i :| 0 <= i < |tags| && tags[i].name == name;
          assert tags[1..][i - 1] == tags[i];
        }
      }
      if r.Some? then Some(r.value + 1) else None
  }

  /** Under the UNIQUE constraint the row FindTag reports is the only one with that name. */
  lemma FindTagUnique(tags: seq<Tag>, name: string, i: nat)
    requires NamesUnique(tags) && i < |tags| && tags[i].name == name
    ensures FindTag(tags, name) == Some(i)
  {
  }

  /** The largest id of a table that has rows. */
  function MaxId(tags: seq<Tag>): (r: int)
    requires tags != []
    ensures forall i :: 0 <= i < |tags| ==> tags[i].id <= r
    ensures exists i :: 0 <= i < |tags| && tags[i].id == r
  {
    var last := tags[|tags| - 1].id;
    if |tags| == 1 then last
    else
      var m := MaxId(tags[..|tags| - 1]);
      assert exists i :: 0 <= i < |tags| - 1 && tags[i].id == m by {
        var i :| 0 <= i < |tags| - 1 && tags[..|tags| - 1][i].id == m;
        assert tags[i] == tags[..|tags| - 1][i];
      }
      if last > m then last else m
  }

  /** The rowid SQLite gives the next row inserted under an INTEGER PRIMARY KEY: one more than
      the largest rowid, or 1 in an empty table. */
  function NextId(tags: seq<Tag>): (r: int)
    ensures forall i :: 0 <= i < |tags| ==> tags[i].id < r
    ensures tags == [] ==> r == 1
    ensures tags != [] ==> exists i :: 0 <= i < |tags| && r == tags[i].id + 1
  {
    if tags == [] then 1 else MaxId(tags) + 1
  }

  /** After rows with ids 1, 2 and 3 the next tag gets id 4. */
  lemma NextIdAfterThree(a: Tag, b: Tag, c: Tag)
    requires a.id == 1 && b.id == 2 && c.id == 3
    ensures NextId([a, b, c]) == 4
  {
    var t := [a, b, c];
    assert t[..2] == [a, b] && t[..2][..1] == [a];
  }

  /** createTag: insert (name, '', now) unless a row with that name already exists. */
  function WithTag(tags: seq<Tag>, name: string, now: int): seq<Tag> {
    if FindTag(tags, name).Some? then tags else tags + [Tag(NextId(tags), name, "", now)]
  }

  /** `UPDATE TagTable SET photo_id_list = ? WHERE id = ?`. */
  function WriteList(tags: seq<Tag>, id: int, list: string): (r: seq<Tag>)
    ensures |r| == |tags|
    ensures forall i :: 0 <= i < |tags| ==>
      r[i] == if tags[i].id == id then tags[i].(photoIdList := list) else tags[i]
  {
    seq(|tags|, i requires 0 <= i < |tags| =>
      if tags[i].id == id then tags[i].(photoIdList := list) else tags[i])
  }

  /** setTagItems: the row with that name gets the rendered list; nothing changes when no row
      has the name. */
  function SetList(tags: seq<Tag>, name: string, items: seq<string>): seq<Tag> {
    match FindTag(tags, name)
    case None => tags
    case Some(i) => WriteList(tags, tags[i].id, Render(items))
  }

  /** manipulateItemOnTag: find or create the tag, edit its exploded list, write it back. */
  function Manipulate(tags: seq<Tag>, name: string, whatToDo: string, x: string, now: int): seq<Tag> {
    var t1 := WithTag(tags, name, now);
    match FindTag(t1, name)
    case None => t1
    case Some(i) => SetList(t1, name, Edit(Fields(t1[i]), whatToDo, x))
  }

  /** One manipulateItemOnTag call per name, in order. */
  function ApplyEach(tags: seq<Tag>, names: seq<string>, whatToDo: string, x: string, now: int): seq<Tag>
    decreases |names|
  {
    if names == [] then tags
    else Manipulate(ApplyEach(tags, names[..|names| - 1], whatToDo, x, now), names[|names| - 1], whatToDo, x, now)
  }

  /** array_diff(a, b): the elements of a that are not in b, in their order, duplicates kept. */
  function Diff(a: seq<string>, b: seq<string>): (r: seq<string>)
    ensures forall i :: 0 <= i < |r| ==> r[i] in a && r[i] !in b
  {
    if a == [] then []
    else if a[0] in b then Diff(a[1..], b)
    else [a[0]] + Diff(a[1..], b)
  }

  lemma {:induction false} DiffCount(a: seq<string>, b: seq<string>, y: string)
    ensures multiset(Diff(a, b))[y] == if y in b then 0 else multiset(a)[y]
  {
    if a != [] {
      DiffCount(a[1..], b, y);
      assert a == [a[0]] + a[1..];
    }
  }

  /** array_diff keeps the order of its first argument: one more element of a is appended
      to the result exactly when b does not hold it. */
  lemma {:induction false} DiffSnoc(a: seq<string>, y: string, b: seq<string>)
    ensures Diff(a + [y], b) == Diff(a, b) + (if y in b then [] else [y])
    decreases |a|
  {
    if a == [] {
      assert [y][1..] == [];
    } else {
      assert (a + [y])[0] == a[0] && (a + [y])[1..] == a[1..] + [y];
      DiffSnoc(a[1..], y, b);
    }
  }

  /** array_diff(a, b) is a when a and b share no element. */
  lemma {:induction false} DiffOfDisjoint(a: seq<string>, b: seq<string>)
    requires forall i :: 0 <= i < |a| ==> a[i] !in b
    ensures Diff(a, b) == a
    decreases |a|
  {
    if a != [] {
      DiffOfDisjoint(a[1..], b);
    }
  }

  /** The reconciliation setItemTags performs for an object ID the index already holds: add x to
      every desired tag it is missing from, then remove it from every current tag not desired. */
  function Reconcile(tags: seq<Tag>, x: string, desired: seq<string>, now: int): seq<Tag> {
    var current := Lookup(ItemTagMap(tags), x);
    var afterAdd := ApplyEach(tags, Diff(desired, current), "add", x, now);
    ApplyEach(afterAdd, Diff(current, desired), "remove", x, now)
  }

  /** The rows keep their order, ids and names; rows may only be added at the end. */
  predicate Extends(old_: seq<Tag>, new_: seq<Tag>) {
    |old_| <= |new_| &&
    forall i :: 0 <= i < |old_| ==>
      (new_[i].id == old_[i].id && new_[i].name == old_[i].name &&
       new_[i].timeCreated == old_[i].timeCreated)
  }

  lemma ExtendsTrans(a: seq<Tag>, b: seq<Tag>, c: seq<Tag>)
    requires Extends(a, b) && Extends(b, c)
    ensures Extends(a, c)
  {
  }

  lemma ExtendsNamed(a: seq<Tag>, b: seq<Tag>, n: string)
    requires Extends(a, b) && Named(a, n)
    ensures Named(b, n)
  {
    var i :| 0 <= i < |a| && a[i].name == n;
    assert b[i].name == n;
  }

  /** createTag keeps the constraints, makes the name present, reports the new row only when the
      name was missing, and leaves the index unchanged. */
  lemma WithTagEffect(tags: seq<Tag>, name: string, now: int)
    requires TableValid(tags)
    ensures var r := WithTag(tags, name, now);
      TableValid(r) && Extends(tags, r) && Named(r, name) &&
      |r| == |tags| + (if Named(tags, name) then 0 else 1) &&
      (forall i :: 0 <= i < |tags| ==> r[i] == tags[i]) &&
      (forall i :: |tags| <= i < |r| ==> r[i].name == name)
  {
    var r := WithTag(tags, name, now);
    if !Named(tags, name) {
      assert r[|tags|].name == name;
    }
  }

  /** The row createTag adds has an empty list, so the index stays as it was. */
  lemma WithTagKeepsIndex(tags: seq<Tag>, name: string, now: int)
    ensures ItemTagMap(WithTag(tags, name, now)) == ItemTagMap(tags)
  {
    if FindTag(tags, name).None? {
      AppendEmptyTag(tags, Tag(NextId(tags), name, "", now));
    }
  }

  /** setTagItems rewrites the list of the named row and of no other row. */
  lemma SetListEffect(tags: seq<Tag>, name: string, items: seq<string>)
    requires TableValid(tags)
    ensures var r := SetList(tags, name, items);
      TableValid(r) && |r| == |tags| && Extends(tags, r) &&
      forall i :: 0 <= i < |tags| ==>
        r[i] == if tags[i].name == name then tags[i].(photoIdList := Render(items)) else tags[i]
  {
    match FindTag(tags, name)
    case None =>
    case Some(k) =>
      var r := SetList(tags, name, items);
      forall i | 0 <= i < |tags|
        ensures r[i] == if tags[i].name == name then tags[i].(photoIdList := Render(items)) else tags[i]
      {
        assert (tags[i].id == tags[k].id) <==> i == k;
      }
  }

  /** manipulateItemOnTag keeps the table constraints and the rows' ids and names, whatever
      it is asked to do. */
  lemma ManipulateKeepsTable(tags: seq<Tag>, name: string, whatToDo: string, x: string, now: int)
    requires TableValid(tags)
    ensures var r := Manipulate(tags, name, whatToDo, x, now);
      TableValid(r) && Extends(tags, r) && Named(r, name)
  {
    var t1 := WithTag(tags, name, now);
    WithTagEffect(tags, name, now);
    var k := FindTag(t1, name).value;
    SetListEffect(t1, name, Edit(Fields(t1[k]), whatToDo, x));
    assert Manipulate(tags, name, whatToDo, x, now)[k].name == name;
  }

  /** Every object ID other than x is listed by each old row of r as often as by the same row
      of a, and by no row r appends. */
  ghost predicate OthersKept(a: seq<Tag>, r: seq<Tag>, x: string) {
    |a| <= |r| &&
    (forall i, y :: 0 <= i < |a| && y != x && y != "" ==> Listings(r[i], y) == Listings(a[i], y)) &&
    (forall i, y :: |a| <= i < |r| && y != x && y != "" ==> Listings(r[i], y) == 0)
  }

  lemma OthersKeptTrans(a: seq<Tag>, b: seq<Tag>, c: seq<Tag>, x: string)
    requires OthersKept(a, b, x) && OthersKept(b, c, x)
    ensures OthersKept(a, c, x)
  {
  }

  /** manipulateItemOnTag(name, whatToDo, x) leaves every other object ID's listings alone. */
  lemma ManipulateKeepsOthers(tags: seq<Tag>, name: string, whatToDo: string, x: string, now: int)
    requires TableValid(tags) && ',' !in x
    ensures OthersKept(tags, Manipulate(tags, name, whatToDo, x, now), x)
  {
    var t1 := WithTag(tags, name, now);
    WithTagEffect(tags, name, now);
    var k := FindTag(t1, name).value;
    var e := Edit(Fields(t1[k]), whatToDo, x);
    SetListEffect(t1, name, e);
    var r := Manipulate(tags, name, whatToDo, x, now);
    assert r == SetList(t1, name, e);
    ExplodeCommaFree(t1[k].photoIdList);
    EditCommaFree(Fields(t1[k]), whatToDo, x);
    forall i, y | 0 <= i < |r| && y != x && y != ""
      ensures Listings(r[i], y) == if i < |tags| then Listings(tags[i], y) else 0
    {
      if t1[i].name == name {
        FindTagUnique(t1, name, i);
        RenderCount(e, y);
        EditCounts(Fields(t1[k]), whatToDo, x, y);
        if |tags| <= i {
          assert t1[k].photoIdList == "" && Fields(t1[k]) == [""];
        }
      }
    }
  }

  /** The table constraints and the old rows' ids and names survive a run of manipulateItemOnTag. */
  lemma {:induction false} ApplyEachKeepsTable(tags: seq<Tag>, names: seq<string>, whatToDo: string, x: string, now: int)
    requires TableValid(tags)
    ensures TableValid(ApplyEach(tags, names, whatToDo, x, now)) && Extends(tags, ApplyEach(tags, names, whatToDo, x, now))
    decreases |names|
  {
    if names != [] {
      var init := names[..|names| - 1];
      ApplyEachKeepsTable(tags, init, whatToDo, x, now);
      var a := ApplyEach(tags, init, whatToDo, x, now);
      ManipulateKeepsTable(a, names[|names| - 1], whatToDo, x, now);
      ExtendsTrans(tags, a, ApplyEach(tags, names, whatToDo, x, now));
    }
  }

  /** A run of manipulateItemOnTag for x leaves every other object ID's listings alone. */
  lemma {:induction false} ApplyEachKeepsOthers(tags: seq<Tag>, names: seq<string>, whatToDo: string, x: string, now: int)
    requires TableValid(tags) && ',' !in x
    ensures OthersKept(tags, ApplyEach(tags, names, whatToDo, x, now), x)
    decreases |names|
  {
    if names != [] {
      var init := names[..|names| - 1];
      ApplyEachKeepsOthers(tags, init, whatToDo, x, now);
      ApplyEachKeepsTable(tags, init, whatToDo, x, now);
      var a := ApplyEach(tags, init, whatToDo, x, now);
      ManipulateKeepsOthers(a, names[|names| - 1], whatToDo, x, now);
      OthersKeptTrans(tags, a, ApplyEach(tags, names, whatToDo, x, now), x);
    }
  }

  /** r is what manipulateItemOnTag(name, whatToDo, x) makes of the table a: the constraints
      hold, the tag exists (appended when it was missing), no other row changes, and the
      tag's count of x becomes EditedCount of the old one. */
  predicate Manipulated(a: seq<Tag>, r: seq<Tag>, name: string, whatToDo: string, x: string) {
    TableValid(r) && Extends(a, r) && Named(r, name) &&
    |r| == |a| + (if Named(a, name) then 0 else 1) &&
    (forall i :: 0 <= i < |a| && a[i].name != name ==> r[i] == a[i]) &&
    (forall i :: |a| <= i < |r| ==> r[i].name == name) &&
    forall i :: 0 <= i < |r| && r[i].name == name ==>
      Listings(r[i], x) == EditedCount(if i < |a| then Listings(a[i], x) else 0, whatToDo)
  }

  /** manipulateItemOnTag appends a row only when the tag is missing, and that row carries the
      tag's name; it leaves every row of another name as it was. */
  lemma ManipulateShape(tags: seq<Tag>, name: string, whatToDo: string, x: string, now: int)
    requires TableValid(tags)
    ensures var r := Manipulate(tags, name, whatToDo, x, now);
      |r| == |tags| + (if Named(tags, name) then 0 else 1) &&
      (forall i :: 0 <= i < |tags| && tags[i].name != name ==> r[i] == tags[i]) &&
      (forall i :: |tags| <= i < |r| ==> r[i].name == name)
  {
    var t1 := WithTag(tags, name, now);
    WithTagEffect(tags, name, now);
    var k := FindTag(t1, name).value;
    var e := Edit(Fields(t1[k]), whatToDo, x);
    SetListEffect(t1, name, e);
    var r := Manipulate(tags, name, whatToDo, x, now);
    assert r == SetList(t1, name, e);
    assert forall i :: 0 <= i < |r| ==> r[i].name == t1[i].name;
  }

  /** manipulateItemOnTag sets the tag's count of x to EditedCount of the old one (none for a
      tag it creates). */
  lemma ManipulateCount(tags: seq<Tag>, name: string, whatToDo: string, x: string, now: int)
    requires TableValid(tags) && x != "" && ',' !in x
    ensures var r := Manipulate(tags, name, whatToDo, x, now);
      forall i :: 0 <= i < |r| && r[i].name == name ==>
        Listings(r[i], x) == EditedCount(if i < |tags| then Listings(tags[i], x) else 0, whatToDo)
  {
    var t1 := WithTag(tags, name, now);
    WithTagEffect(tags, name, now);
    var k := FindTag(t1, name).value;
    var e := Edit(Fields(t1[k]), whatToDo, x);
    SetListEffect(t1, name, e);
    var r := Manipulate(tags, name, whatToDo, x, now);
    assert r == SetList(t1, name, e);
    ExplodeCommaFree(t1[k].photoIdList);
    EditCommaFree(Fields(t1[k]), whatToDo, x);
    RenderCount(e, x);
    EditCounts(Fields(t1[k]), whatToDo, x, x);
    assert Listings(r[k], x) == EditedCount(Listings(t1[k], x), whatToDo);
    if |tags| <= k {
      assert t1[k].photoIdList == "" && Fields(t1[k]) == [""];
    }
    forall i | 0 <= i < |r| && r[i].name == name
      ensures Listings(r[i], x) == EditedCount(if i < |tags| then Listings(tags[i], x) else 0, whatToDo)
    {
      FindTagUnique(t1, name, i);
    }
  }

  /** manipulateItemOnTag keeps the constraints, creates the tag when missing, and changes only
      that tag's list, whose count of x becomes EditedCount of the old one. */
  lemma ManipulateEffect(tags: seq<Tag>, name: string, whatToDo: string, x: string, now: int)
    requires TableValid(tags) && x != "" && ',' !in x
    ensures Manipulated(tags, Manipulate(tags, name, whatToDo, x, now), name, whatToDo, x)
  {
    ManipulateKeepsTable(tags, name, whatToDo, x, now);
    ManipulateShape(tags, name, whatToDo, x, now);
    ManipulateCount(tags, name, whatToDo, x, now);
  }

  /** r is the table tags after adding x to each of names: the constraints hold, every name
      exists and lists x, rows whose name is not among the names are untouched, and new rows
      carry one of the names. */
  predicate AddedTo(tags: seq<Tag>, r: seq<Tag>, names: seq<string>, x: string) {
    TableValid(r) && Extends(tags, r) &&
    (forall n :: n in names ==> Named(r, n)) &&
    (forall i :: 0 <= i < |tags| && tags[i].name !in names ==> r[i] == tags[i]) &&
    (forall i :: |tags| <= i < |r| ==> r[i].name in names) &&
    forall i :: 0 <= i < |r| && r[i].name in names ==> Listings(r[i], x) >= 1
  }

  /** One more 'add' keeps AddedTo. */
  lemma AddStep(tags: seq<Tag>, a: seq<Tag>, r: seq<Tag>, init: seq<string>, n: string, x: string)
    requires AddedTo(tags, a, init, x) && Manipulated(a, r, n, "add", x)
    ensures AddedTo(tags, r, init + [n], x)
  {
    ExtendsTrans(tags, a, r);
    forall m | m in init + [n] ensures Named(r, m) {
      if m != n {
        ExtendsNamed(a, r, m);
      }
    }
  }

  /** The add phase: every name ends up present, every named row lists x, and rows whose name
      is not among the names are untouched. */
  lemma {:induction false} AddPhase(tags: seq<Tag>, names: seq<string>, x: string, now: int)
    requires TableValid(tags) && x != "" && ',' !in x
    ensures AddedTo(tags, ApplyEach(tags, names, "add", x, now), names, x)
    decreases |names|
  {
    if names != [] {
      var init := names[..|names| - 1];
      var n := names[|names| - 1];
      assert names == init + [n];
      AddPhase(tags, init, x, now);
      var a := ApplyEach(tags, init, "add", x, now);
      ManipulateEffect(a, n, "add", x, now);
      AddStep(tags, a, Manipulate(a, n, "add", x, now), init, n, x);
    }
  }

  /** max(c - k, 0). */
  function Minus(c: nat, k: nat): nat {
    if c >= k then c - k else 0
  }

  /** r is the table tags after removing x from each of names, all present: the constraints
      hold, no row is added, rows whose name is not among the names are untouched, and each
      row loses one copy of x per occurrence of its name, down to none. */
  predicate RemovedFrom(tags: seq<Tag>, r: seq<Tag>, names: seq<string>, x: string) {
    TableValid(r) && Extends(tags, r) && |r| == |tags| &&
    (forall i :: 0 <= i < |tags| && tags[i].name !in names ==> r[i] == tags[i]) &&
    forall i :: 0 <= i < |tags| ==>
      Listings(r[i], x) == Minus(Listings(tags[i], x), multiset(names)[tags[i].name])
  }

  /** One more 'remove' of a present name keeps RemovedFrom. */
  lemma RemoveStep(tags: seq<Tag>, a: seq<Tag>, r: seq<Tag>, init: seq<string>, n: string, x: string)
    requires RemovedFrom(tags, a, init, x) && Named(a, n) && Manipulated(a, r, n, "remove", x)
    ensures RemovedFrom(tags, r, init + [n], x)
  {
    var names := init + [n];
    ExtendsTrans(tags, a, r);
    forall i | 0 <= i < |tags|
      ensures Listings(r[i], x) == Minus(Listings(tags[i], x), multiset(names)[tags[i].name])
    {
      var m := tags[i].name;
      assert a[i].name == m;
      assert multiset(names)[m] == multiset(init)[m] + (if m == n then 1 else 0);
    }
  }

  /** The remove phase, when every name is present: the rows stay where they are, and each row
      loses one copy of x per occurrence of its name, down to none. */
  lemma {:induction false} RemovePhase(tags: seq<Tag>, names: seq<string>, x: string, now: int)
    requires TableValid(tags) && x != "" && ',' !in x
    requires forall n :: n in names ==> Named(tags, n)
    ensures RemovedFrom(tags, ApplyEach(tags, names, "remove", x, now), names, x)
    decreases |names|
  {
    if names != [] {
      var init := names[..|names| - 1];
      var n := names[|names| - 1];
      assert names == init + [n];
      RemovePhase(tags, init, x, now);
      var a := ApplyEach(tags, init, "remove", x, now);
      ExtendsNamed(tags, a, n);
      ManipulateEffect(a, n, "remove", x, now);
      RemoveStep(tags, a, Manipulate(a, n, "remove", x, now), init, n, x);
    }
  }

  lemma ReconcileSetup(tags: seq<Tag>, x: string)
    requires TableValid(tags) && x in ItemTagMap(tags)
    ensures x != "" && ',' !in x
    ensures Lookup(ItemTagMap(tags), x) == TagsListing(tags, x)
    ensures forall i :: 0 <= i < |tags| ==>
      multiset(TagsListing(tags, x))[tags[i].name] == Listings(tags[i], x)
    ensures forall n :: n in TagsListing(tags, x) ==> Named(tags, n)
  {
    IndexKeys(tags, x);
    ItemTagMapEntry(tags, x);
    forall i | 0 <= i < |tags| ensures multiset(TagsListing(tags, x))[tags[i].name] == Listings(tags[i], x) {
      TagsListingCounts(tags, x, i);
    }
    forall n | n in TagsListing(tags, x) ensures Named(tags, n) {
      TagsListingNames(tags, x, n);
    }
  }

  /** The reconciliation on values: tags holds x under the names `cur`, a is tags after the
      add phase over Diff(desired, cur) and r is a after the remove phase over Diff(cur,
      desired). Then a row of r lists x exactly when its name is desired. */
  lemma MembershipOf(tags: seq<Tag>, a: seq<Tag>, r: seq<Tag>, x: string, desired: seq<string>, cur: seq<string>)
    requires forall i :: 0 <= i < |tags| ==> multiset(cur)[tags[i].name] == Listings(tags[i], x)
    requires AddedTo(tags, a, Diff(desired, cur), x)
    requires RemovedFrom(a, r, Diff(cur, desired), x)
    ensures Extends(tags, r)
    ensures forall i :: 0 <= i < |r| ==> (x in Fields(r[i]) <==> r[i].name in desired)
  {
    var adds := Diff(desired, cur);
    var rems := Diff(cur, desired);
    ExtendsTrans(tags, a, r);
    forall i | 0 <= i < |r| ensures x in Fields(r[i]) <==> r[i].name in desired {
      var n := r[i].name;
      assert a[i].name == n;
      DiffCount(desired, cur, n);
      DiffCount(cur, desired, n);
      if i < |tags| {
        assert n == tags[i].name;
        if n in cur || n !in desired {
          assert n !in adds;
        }
      } else {
        assert n in adds;
      }
    }
  }

  /** Every desired name exists after the reconciliation, on values as in MembershipOf. */
  lemma NamesOf(tags: seq<Tag>, a: seq<Tag>, r: seq<Tag>, x: string, desired: seq<string>, cur: seq<string>)
    requires forall n :: n in cur ==> Named(tags, n)
    requires AddedTo(tags, a, Diff(desired, cur), x)
    requires Extends(a, r)
    ensures forall n :: n in desired ==> Named(r, n)
  {
    forall n | n in desired ensures Named(r, n) {
      if n in cur {
        ExtendsNamed(tags, a, n);
      } else {
        DiffCount(desired, cur, n);
        assert n in Diff(desired, cur);
      }
      ExtendsNamed(a, r, n);
    }
  }

  /** The two phases of the reconciliation, with what each guarantees. */
  lemma ReconcilePhases(tags: seq<Tag>, x: string, desired: seq<string>, now: int)
    requires TableValid(tags) && x in ItemTagMap(tags)
    ensures var cur := Lookup(ItemTagMap(tags), x);
      var a := ApplyEach(tags, Diff(desired, cur), "add", x, now);
      AddedTo(tags, a, Diff(desired, cur), x) &&
      RemovedFrom(a, Reconcile(tags, x, desired, now), Diff(cur, desired), x)
  {
    ReconcileSetup(tags, x);
    var cur := Lookup(ItemTagMap(tags), x);
    var adds := Diff(desired, cur);
    var rems := Diff(cur, desired);
    AddPhase(tags, adds, x, now);
    var a := ApplyEach(tags, adds, "add", x, now);
    forall n | n in rems ensures Named(a, n) {
      ExtendsNamed(tags, a, n);
    }
    RemovePhase(a, rems, x, now);
  }

  /** After setItemTags(x, desired) on an item the index holds, the constraints still hold,
      every desired tag exists, and a tag lists x exactly when its name is desired. */
  lemma ReconcileMembership(tags: seq<Tag>, x: string, desired: seq<string>, now: int)
    requires TableValid(tags) && x in ItemTagMap(tags)
    ensures var r := Reconcile(tags, x, desired, now);
      TableValid(r) && Extends(tags, r) &&
      (forall n :: n in desired ==> Named(r, n)) &&
      forall i :: 0 <= i < |r| ==> (x in Fields(r[i]) <==> r[i].name in desired)
  {
    ReconcileSetup(tags, x);
    ReconcilePhases(tags, x, desired, now);
    var cur := Lookup(ItemTagMap(tags), x);
    var a := ApplyEach(tags, Diff(desired, cur), "add", x, now);
    var r := Reconcile(tags, x, desired, now);
    MembershipOf(tags, a, r, x, desired, cur);
    NamesOf(tags, a, r, x, desired, cur);
  }

  /** The rows the reconciliation appends carry a desired name and a non-empty list, on
      values as in MembershipOf. */
  lemma NewRowsOf(tags: seq<Tag>, a: seq<Tag>, r: seq<Tag>, x: string, desired: seq<string>, cur: seq<string>)
    requires AddedTo(tags, a, Diff(desired, cur), x)
    requires RemovedFrom(a, r, Diff(cur, desired), x)
    requires x != ""
    requires forall i :: 0 <= i < |r| ==> (x in Fields(r[i]) <==> r[i].name in desired)
    ensures forall i :: |tags| <= i < |r| ==> r[i].name in desired && r[i].photoIdList != ""
  {
    forall i | |tags| <= i < |r| ensures r[i].name in desired && r[i].photoIdList != "" {
      assert r[i].name == a[i].name;
      assert x in Fields(r[i]);
      assert Explode("") == [""];
    }
  }

  /** The reconciliation leaves a row whose membership of x already agreed with `desired`
      exactly as it was, on values as in MembershipOf. */
  lemma UntouchedOf(tags: seq<Tag>, a: seq<Tag>, r: seq<Tag>, x: string, desired: seq<string>, cur: seq<string>)
    requires forall i :: 0 <= i < |tags| ==> multiset(cur)[tags[i].name] == Listings(tags[i], x)
    requires AddedTo(tags, a, Diff(desired, cur), x)
    requires RemovedFrom(a, r, Diff(cur, desired), x)
    ensures forall i :: 0 <= i < |tags| && (x in Fields(tags[i]) <==> tags[i].name in desired) ==>
      r[i] == tags[i]
  {
    var adds := Diff(desired, cur);
    var rems := Diff(cur, desired);
    forall i | 0 <= i < |tags| && (x in Fields(tags[i]) <==> tags[i].name in desired)
      ensures r[i] == tags[i]
    {
      var n := tags[i].name;
      DiffCount(desired, cur, n);
      DiffCount(cur, desired, n);
      assert n !in adds && n !in rems;
      assert a[i].name == n;
    }
  }

  /** A tag whose membership of x already agreed with `desired` is left exactly as it was, and
      rows are only ever appended. */
  lemma ReconcileUntouched(tags: seq<Tag>, x: string, desired: seq<string>, now: int)
    requires TableValid(tags) && x in ItemTagMap(tags)
    ensures var r := Reconcile(tags, x, desired, now);
      Extends(tags, r) &&
      (forall i :: |tags| <= i < |r| ==> r[i].name in desired && r[i].photoIdList != "") &&
      forall i :: 0 <= i < |tags| && (x in Fields(tags[i]) <==> tags[i].name in desired) ==>
        r[i] == tags[i]
  {
    ReconcileSetup(tags, x);
    ReconcilePhases(tags, x, desired, now);
    var cur := Lookup(ItemTagMap(tags), x);
    var a := ApplyEach(tags, Diff(desired, cur), "add", x, now);
    var r := Reconcile(tags, x, desired, now);
    MembershipOf(tags, a, r, x, desired, cur);
    NewRowsOf(tags, a, r, x, desired, cur);
    UntouchedOf(tags, a, r, x, desired, cur);
  }

  /** A table in which a tag lists x exactly when its name is desired, and every desired name
      exists, indexes x under exactly the desired names. */
  lemma IndexOfMembership(r: seq<Tag>, x: string, desired: seq<string>)
    requires x != ""
    requires forall n :: n in desired ==> Named(r, n)
    requires forall i :: 0 <= i < |r| ==> (x in Fields(r[i]) <==> r[i].name in desired)
    ensures x in ItemTagMap(r) <==> desired != []
    ensures forall n :: n in Lookup(ItemTagMap(r), x) <==> n in desired
  {
    ItemTagMapEntry(r, x);
    if desired != [] {
      assert desired[0] in desired;
      assert Named(r, desired[0]);
      var i :| 0 <= i < |r| && r[i].name == desired[0];
      assert x in Fields(r[i]);
    }
    forall n ensures n in TagsListing(r, x) <==> n in desired {
      TagsListingNames(r, x, n);
      if n in desired {
        var i :| 0 <= i < |r| && r[i].name == n;
        assert ListedUnder(r, x, n);
      }
    }
  }

  /** After setItemTags(x, desired), x's index entry names exactly the desired tags; x leaves
      the index only when desired is empty. */
  lemma ReconcileIndex(tags: seq<Tag>, x: string, desired: seq<string>, now: int)
    requires TableValid(tags) && x in ItemTagMap(tags)
    ensures var m := ItemTagMap(Reconcile(tags, x, desired, now));
      (x in m <==> desired != []) &&
      forall n :: n in Lookup(m, x) <==> n in desired
  {
    IndexKeys(tags, x);
    ReconcileMembership(tags, x, desired, now);
    IndexOfMembership(Reconcile(tags, x, desired, now), x, desired);
  }

  /** setItemTags for x changes no other object ID's entry: it is listed by the same tags, as
      often, and it is a key of the index exactly when it was. */
  lemma ReconcileKeepsOthers(tags: seq<Tag>, x: string, desired: seq<string>, now: int, y: string)
    requires TableValid(tags) && ',' !in x && y != x && y != ""
    ensures var r := Reconcile(tags, x, desired, now);
      TagsListing(r, y) == TagsListing(tags, y) &&
      Lookup(ItemTagMap(r), y) == Lookup(ItemTagMap(tags), y) &&
      (y in ItemTagMap(r) <==> y in ItemTagMap(tags))
  {
    var cur := Lookup(ItemTagMap(tags), x);
    var adds := Diff(desired, cur);
    var a := ApplyEach(tags, adds, "add", x, now);
    var r := Reconcile(tags, x, desired, now);
    assert r == ApplyEach(a, Diff(cur, desired), "remove", x, now);
    ApplyEachKeepsTable(tags, adds, "add", x, now);
    ApplyEachKeepsOthers(tags, adds, "add", x, now);
    ApplyEachKeepsTable(a, Diff(cur, desired), "remove", x, now);
    ApplyEachKeepsOthers(a, Diff(cur, desired), "remove", x, now);
    ExtendsTrans(tags, a, r);
    OthersKeptTrans(tags, a, r, x);
    TagsListingKept(tags, r, y);
    ItemTagMapEntry(tags, y);
    ItemTagMapEntry(r, y);
    if y in ItemTagMap(r) {
      IndexKeys(r, y);
    }
    if y in ItemTagMap(tags) {
      IndexKeys(tags, y);
    }
  }

  /** array_diff(a, b) is empty when every element of a is in b. */
  lemma {:induction false} DiffAllIn(a: seq<string>, b: seq<string>)
    requires forall y :: y in a ==> y in b
    ensures Diff(a, b) == []
  {
    if a != [] {
      DiffAllIn(a[1..], b);
    }
  }

  /** A second setItemTags with the same desired list changes nothing. */
  lemma ReconcileIdempotent(tags: seq<Tag>, x: string, desired: seq<string>, now: int, later: int)
    requires TableValid(tags) && x in ItemTagMap(tags) && desired != []
    ensures var r := Reconcile(tags, x, desired, now);
      x in ItemTagMap(r) && Reconcile(r, x, desired, later) == r
  {
    ReconcileIndex(tags, x, desired, now);
    var r := Reconcile(tags, x, desired, now);
    DiffAllIn(desired, Lookup(ItemTagMap(r), x));
    DiffAllIn(Lookup(ItemTagMap(r), x), desired);
  }

  /** removeAllItemTags: after reconciling with no desired tags no row lists x and x has left
      the index. */
  lemma RemoveAll(tags: seq<Tag>, x: string, now: int)
    requires TableValid(tags) && x in ItemTagMap(tags)
    ensures var r := Reconcile(tags, x, [], now);
      x !in ItemTagMap(r) && forall i :: 0 <= i < |r| ==> x !in Fields(r[i])
  {
    ReconcileIndex(tags, x, [], now);
    ReconcileMembership(tags, x, [], now);
  }
  /** No stored photo_id_list holds ",,". */
  predicate ListsNoDouble(tags: seq<Tag>) {
    forall i :: 0 <= i < |tags| ==> !HasDoubleComma(tags[i].photoIdList)
  }

  /** manipulateItemOnTag with a non-empty, comma-free ID stores no ",," in a table that held none. */
  lemma ManipulateNoDouble(tags: seq<Tag>, name: string, whatToDo: string, x: string, now: int)
    requires ListsNoDouble(tags) && x != "" && ',' !in x
    ensures ListsNoDouble(Manipulate(tags, name, whatToDo, x, now))
  {
    var t1 := WithTag(tags, name, now);
    assert ListsNoDouble(t1) by {
      if FindTag(tags, name).None? {
        assert t1[|tags|].photoIdList == "";
      }
    }
    match FindTag(t1, name)
    case None =>
    case Some(k) =>
      var list := Render(Edit(Fields(t1[k]), whatToDo, x));
      PersistKeepsNoDouble(t1[k].photoIdList, whatToDo, x);
      var r := WriteList(t1, t1[k].id, list);
      assert r == Manipulate(tags, name, whatToDo, x, now);
      forall i | 0 <= i < |r| ensures !HasDoubleComma(r[i].photoIdList) {
        if t1[i].id == t1[k].id { assert r[i].photoIdList == list; }
      }
  }

  lemma {:induction false} ApplyEachNoDouble(tags: seq<Tag>, names: seq<string>, whatToDo: string, x: string, now: int)
    requires ListsNoDouble(tags) && x != "" && ',' !in x
    ensures ListsNoDouble(ApplyEach(tags, names, whatToDo, x, now))
    decreases |names|
  {
    if names != [] {
      ApplyEachNoDouble(tags, names[..|names| - 1], whatToDo, x, now);
      ManipulateNoDouble(ApplyEach(tags, names[..|names| - 1], whatToDo, x, now), names[|names| - 1], whatToDo, x, now);
    }
  }

  /** setItemTags with a non-empty, comma-free ID stores no ",," in a table that held none. */
  lemma ReconcileNoDouble(tags: seq<Tag>, x: string, desired: seq<string>, now: int)
    requires ListsNoDouble(tags) && x != "" && ',' !in x
    ensures ListsNoDouble(Reconcile(tags, x, desired, now))
  {
    var current := Lookup(ItemTagMap(tags), x);
    ApplyEachNoDouble(tags, Diff(desired, current), "add", x, now);
    ApplyEachNoDouble(ApplyEach(tags, Diff(desired, current), "add", x, now), Diff(current, desired), "remove", x, now);
  }
}

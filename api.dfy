/** The Api class: an in-memory stand-in for the PhotoTable, VideoTable and TagTable of a
    Shotwell database, plus the lazily filled tagMap cache, with the operations that read and
    write them. */
module Shotwell {
  import opened Wrappers
  import opened Hex
  import opened PhpString
  import opened ObjectId
  import opened IdList
  import opened TagIndex
  import opened TagStore

  /** The columns of a PhotoTable or VideoTable row that the class reads or writes. */
  datatype Item = Item(filename: string, rating: int)

  /** The array getItem returns for one row: the row plus its object_id, tags and type. */
  datatype ItemView = ItemView(id: PhpInt, itemType: ItemType, objectId: string, filename: string,
                               rating: int, tags: seq<string>)

  /** What getItemByObjectId returns: false when no prefix matches; an array holding only
      'type' and 'object_id' when getItem finds no row (it returns an empty array then); the
      row otherwise. */
  datatype ItemLookup =
    | NoType
    | Stub(itemType: ItemType, objectId: string)
    | Found(item: ItemView)

  /** A TagTable row as getTag and getAllTags return it, with its 'items' when asked for. */
  datatype TagRecord = TagRecord(tag: Tag, items: seq<ItemLookup>)

  /** setItemRating either throws for a non-numeric rating or returns a boolean. */
  datatype RatingOutcome = NotNumeric | Written(ok: bool)

  /** PHP's empty() on a string: true for "" and for "0". */
  predicate PhpEmpty(s: string) {
    s == "" || s == "0"
  }

  predicate IsDigit(c: char) {
    '0' <= c <= '9'
  }

  function Unsigned(s: string): string {
    if |s| > 0 && (s[0] == '+' || s[0] == '-') then s[1..] else s
  }

  /** is_numeric on integer strings: an optional sign followed by one or more decimal digits. */
  predicate IsNumeric(s: string) {
    var d := Unsigned(s);
    |d| > 0 && forall i :: 0 <= i < |d| ==> IsDigit(d[i])
  }

  function DigitsValue(d: string): nat
    requires forall i :: 0 <= i < |d| ==> IsDigit(d[i])
  {
    if d == [] then 0
    else
      assert IsDigit(d[|d| - 1]);
      DigitsValue(d[..|d| - 1]) * 10 + (d[|d| - 1] as int - '0' as int)
  }

  /** The integer SQLite stores for a numeric rating string. */
  function NumericValue(s: string): (r: int)
    requires IsNumeric(s)
    ensures s[0] == '-' ==> r <= 0
    ensures s[0] != '-' ==> r >= 0
  {
    var v: int := DigitsValue(Unsigned(s));
    if s[0] == '-' then -v else v
  }

  /** Ratings as tests and callers pass them: a plain, a signed and a multi-digit string. */
  lemma NumericValueExamples()
    ensures IsNumeric("5") && NumericValue("5") == 5
    ensures IsNumeric("-1") && NumericValue("-1") == -1
    ensures IsNumeric("+12") && NumericValue("+12") == 12
    ensures !IsNumeric("") && !IsNumeric("-") && !IsNumeric("a")
  {
    assert Unsigned("+12") == "12";
    assert "12"[..1] == "1";
    assert Unsigned("-1") == "1";
    assert Unsigned("-") == "";
  }

  /** The PhotoTable, VideoTable and TagTable rows the class holds, as one value; the reads
      of the class are functions of it. */
  datatype Database = Database(photos: map<PhpInt, Item>, videos: map<PhpInt, Item>, tags: seq<Tag>) {

    /** The table getItem reads for a type. */
    function Table(t: ItemType): map<PhpInt, Item>
    {
      match t
      case Photo => photos
      case Video => videos
    }

    /** getItem(type, id): the row with that id, its canonical object ID, its type, and the
        names of the tags whose lists hold that object ID. */
    function View(t: ItemType, id: int): (r: Option<ItemView>)
      ensures r.Some? <==> id in Table(t)
      ensures r.Some? ==>
        (r.value.id == id && r.value.itemType == t && r.value.objectId == Encode(t, id) &&
         r.value.filename == Table(t)[id].filename && r.value.rating == Table(t)[id].rating &&
         r.value.tags == TagsListing(tags, Encode(t, id)))
    {
      if id in Table(t) then
        var objectId := Encode(t, id);
        EncodeShape(t, id);
        ItemTagMapEntry(tags, objectId);
        Some(ItemView(id, t, objectId, Table(t)[id].filename, Table(t)[id].rating,
                      Lookup(ItemTagMap(tags), objectId)))
      else None
    }

    /** getItemByObjectId: decode the object ID, fetch the row, and report the object ID as
        given. */
    function ItemByObjectId(objectId: string): (r: ItemLookup)
      ensures r.NoType? <==> TypeOf(objectId).None?
      ensures r.Stub? ==>
        (r.itemType == TypeOf(objectId).value && r.objectId == objectId &&
         NumericIdOf(objectId).value !in Table(r.itemType))
      ensures r.Found? ==> var v := r.item;
        TypeOf(objectId) == Some(v.itemType) && v.id >= 0 && NumericIdOf(objectId) == Some(v.id as nat) &&
        v.id in Table(v.itemType) && v.objectId == objectId &&
        v.filename == Table(v.itemType)[v.id].filename && v.rating == Table(v.itemType)[v.id].rating &&
        v.tags == TagsListing(tags, Encode(v.itemType, v.id))
    {
      match TypeOf(objectId)
      case None => NoType
      case Some(t) =>
        var n := NumericIdOf(objectId).value;
        match View(t, n)
        case None => Stub(t, objectId)
        case Some(v) => Found(v.(objectId := objectId))
    }

    /** What one field of a membership list contributes: nothing when, trimmed, PHP considers
        it empty, nothing for a 'false' lookup unless keepFalse holds, the lookup otherwise. */
    function ResolveOne(field: string, keepFalse: bool): (r: seq<ItemLookup>)
      ensures |r| <= 1
    {
      var objectId := Trim(field);
      if PhpEmpty(objectId) then []
      else
        var item := ItemByObjectId(objectId);
        if item.NoType? && !keepFalse then [] else [item]
    }

    /** The items a membership list resolves to, in list order. */
    function Resolve(fields: seq<string>, keepFalse: bool): (r: seq<ItemLookup>)
      ensures |r| <= |fields|
      decreases |fields|
    {
      if fields == [] then []
      else Resolve(fields[..|fields| - 1], keepFalse) + ResolveOne(fields[|fields| - 1], keepFalse)
    }

    /** A field contributes exactly when its trimmed value is not PHP-empty and, for
        getItemsByTag, names a known type; what it contributes is the lookup of the trimmed value. */
    lemma ResolveOneSpec(field: string, keepFalse: bool)
      ensures var r := ResolveOne(field, keepFalse);
        (r != [] <==> !PhpEmpty(Trim(field)) && (keepFalse || TypeOf(Trim(field)).Some?)) &&
        (r != [] ==> r == [ItemByObjectId(Trim(field))])
    {
    }

    /** getItemsByTag never returns a 'false' lookup. */
    lemma {:induction false} ResolveDropsFalse(fields: seq<string>)
      ensures forall i :: 0 <= i < |Resolve(fields, false)| ==> !Resolve(fields, false)[i].NoType?
      decreases |fields|
    {
      if fields != [] {
        ResolveDropsFalse(fields[..|fields| - 1]);
        ResolveOneSpec(fields[|fields| - 1], false);
      }
    }

    /** A row as getTag and getAllTags return it: with its resolved items when asked for. */
    function Record(t: Tag, withItems: bool): TagRecord {
      TagRecord(t, if withItems then Resolve(Fields(t), true) else [])
    }

    /** Resolving one more field of a list appends that field's contribution. */
    lemma ResolvePrefix(fields: seq<string>, j: nat, keepFalse: bool)
      requires j < |fields|
      ensures Resolve(fields[..j + 1], keepFalse) == Resolve(fields[..j], keepFalse) + ResolveOne(fields[j], keepFalse)
    {
      assert fields[..j + 1][..j] == fields[..j];
    }

    /** Decoding an encoded object ID finds the row it was built from; a negative id, which
        dechex prints as its unsigned value, names no row and yields the stub. */
    lemma EncodedLookup(t: ItemType, id: PhpInt)
      ensures ItemByObjectId(Encode(t, id)) ==
        if id >= 0 && id in Table(t) then Found(View(t, id).value) else Stub(t, Encode(t, id))
    {
      DecodeEncode(t, id);
      if id < 0 {
        var n := id + TWO_TO_64;
        assert n !in Table(t);
      }
    }
  }

  class Api {
    var photos: map<PhpInt, Item>
    var videos: map<PhpInt, Item>
    var tags: seq<Tag>
    var tagMap: Option<Index>

    /** The table constraints hold, and a filled cache is the index of the current table. */
    ghost predicate Valid()
      reads this`tags, this`tagMap
    {
      TableValid(tags) && (tagMap.Some? ==> tagMap.value == ItemTagMap(tags))
    }

    /** Opening a database: the three tables as stored, the cache empty. */
    constructor (photos: map<PhpInt, Item>, videos: map<PhpInt, Item>, tags: seq<Tag>)
      requires TableValid(tags)
      ensures Valid()
      ensures this.photos == photos && this.videos == videos && this.tags == tags && tagMap == None
    {
      this.photos := photos;
      this.videos := videos;
      this.tags := tags;
      this.tagMap := None;
    }

    /** The three tables as they stand. */
    function Db(): Database
      reads this`photos, this`videos, this`tags
    {
      Database(photos, videos, tags)
    }

    /** getTagId: the id of the row with that name, or false. */
    function GetTagId(tagName: string): (r: Option<int>)
      reads this`tags
      ensures r.None? <==> !Named(tags, tagName)
      ensures r.Some? ==> exists i :: 0 <= i < |tags| && tags[i].name == tagName && tags[i].id == r.value
    {
      match FindTag(tags, tagName)
      case None => None
      case Some(i) => Some(tags[i].id)
    }

    /** getItemTagMap: walk the tags in table order and append each tag's name to the entry of
        every non-empty field of its list. */
    method GetItemTagMap() returns (m: Index)
      ensures m == ItemTagMap(tags)
    {
      m := map[];
      var i := 0;
      while i < |tags|
        invariant 0 <= i <= |tags|
        invariant m == ItemTagMap(tags[..i])
      {
        var tag := tags[i];
        var thisItems := Explode(tag.photoIdList);
        ghost var before := m;
        var j := 0;
        while j < |thisItems|
          invariant 0 <= j <= |thisItems|
          invariant m == IndexFields(before, thisItems[..j], tag.name)
        {
          IndexFieldsPrefix(before, thisItems, j, tag.name);
          var objectId := thisItems[j];
          if |objectId| > 0 {
            m := m[objectId := Lookup(m, objectId) + [tag.name]];
          }
          j := j + 1;
        }
        assert thisItems[..|thisItems|] == thisItems;
        ItemTagMapPrefix(tags, i);
        i := i + 1;
      }
      assert tags[..|tags|] == tags;
    }

    /** getTagsByObjectId: fill the cache when it is empty, then look the ID up; false when no
        tag lists it. */
    method GetTagsByObjectId(objectId: string) returns (r: Option<seq<string>>)
      requires Valid()
      modifies this`tagMap
      ensures Valid() && tagMap == Some(ItemTagMap(tags))
      ensures r.Some? <==> objectId != "" && Listed(tags, objectId)
      ensures r.Some? ==> r.value == TagsListing(tags, objectId)
    {
      if tagMap.None? {
        var m := GetItemTagMap();
        tagMap := Some(m);
      }
      ItemTagMapEntry(tags, objectId);
      if objectId in tagMap.value {
        r := Some(tagMap.value[objectId]);
      } else {
        r := None;
      }
    }

    /** getItem($type, $id) for one id; None stands for the empty array returned when the row
        does not exist. */
    method GetItem(t: ItemType, id: int) returns (r: Option<ItemView>)
      requires Valid()
      modifies this`tagMap
      ensures Valid() && r == Db().View(t, id)
    {
      var table := if t == Photo then photos else videos;
      if id in table {
        var data := table[id];
        var objectId := Encode(t, id);
        var tagList := GetTagsByObjectId(objectId);
        ItemTagMapEntry(tags, objectId);
        r := Some(ItemView(id, t, objectId, data.filename, data.rating,
                           if tagList.None? then [] else tagList.value));
      } else {
        r := None;
      }
    }

    /** getItemByObjectId. */
    method GetItemByObjectId(objectId: string) returns (r: ItemLookup)
      requires Valid()
      modifies this`tagMap
      ensures Valid() && r == Db().ItemByObjectId(objectId)
    {
      r := NoType;
      var itemType := TypeOf(objectId);
      if itemType.Some? {
        var numId := NumericIdOf(objectId).value;
        var item := GetItem(itemType.value, numId);
        match item
        case None =>
          r := Stub(itemType.value, objectId);
        case Some(v) =>
          r := Found(v.(itemType := itemType.value, objectId := objectId));
      }
    }

    /** setItemRating: reject a non-numeric rating, then write it to the row the object ID
        names; false when the ID has no known prefix or names no row. */
    method SetItemRating(objectId: string, rating: string) returns (r: RatingOutcome)
      requires Valid()
      modifies this`photos, this`videos, this`tagMap
      ensures Valid() && tags == old(tags)
      ensures r == NotNumeric <==> !IsNumeric(rating)
      ensures r == Written(true) <==> IsNumeric(rating) && old(Db()).ItemByObjectId(objectId).Found?
      ensures r != Written(true) ==> photos == old(photos) && videos == old(videos)
      ensures r == Written(true) ==>
        var v := old(Db()).ItemByObjectId(objectId).item;
        var value := NumericValue(rating);
        (v.itemType == Photo ==>
          photos == old(photos)[v.id := old(photos)[v.id].(rating := value)] && videos == old(videos)) &&
        (v.itemType == Video ==>
          videos == old(videos)[v.id := old(videos)[v.id].(rating := value)] && photos == old(photos))
    {
      if !IsNumeric(rating) {
        return NotNumeric;
      }
      var thisTable := TypeOf(objectId);
      if thisTable.None? {
        return Written(false);
      }
      ghost var db := Db();
      var item := GetItemByObjectId(objectId);
      assert item == db.ItemByObjectId(objectId);
      if !item.Found? {
        return Written(false);
      }
      var id := item.item.id;
      assert item.item.itemType == thisTable.value && id in db.Table(thisTable.value);
      UpdateRating(thisTable.value, id, NumericValue(rating));
      r := Written(true);
    }

    /** `UPDATE <table> SET rating = ? WHERE id = ?` on the row that exists. */
    method UpdateRating(t: ItemType, id: PhpInt, value: int)
      requires id in Db().Table(t)
      modifies this`photos, this`videos
      ensures t == Photo ==> photos == old(photos)[id := old(photos)[id].(rating := value)] && videos == old(videos)
      ensures t == Video ==> videos == old(videos)[id := old(videos)[id].(rating := value)] && photos == old(photos)
    {
      if t == Photo {
        photos := photos[id := photos[id].(rating := value)];
      } else {
        videos := videos[id := videos[id].(rating := value)];
      }
    }

    /** createTag: insert the name with an empty list and the given time unless it exists. */
    method CreateTag(tagName: string, now: int) returns (ok: bool)
      modifies this`tags
      ensures ok <==> !Named(old(tags), tagName)
      ensures tags == WithTag(old(tags), tagName, now)
      ensures old(TableValid(tags)) ==> TableValid(tags)
      ensures old(Valid()) ==> Valid()
    {
      if TableValid(tags) {
        WithTagEffect(tags, tagName, now);
      }
      WithTagKeepsIndex(tags, tagName, now);
      ok := false;
      if FindTag(tags, tagName).None? {
        tags := tags + [Tag(NextId(tags), tagName, "", now)];
        ok := true;
      }
    }

    /** getTag: the row with that name, created first when autoCreate holds, with its items
        attached when withItems holds; null when it does not exist. */
    method GetTag(tagName: string, autoCreate: bool, withItems: bool, now: int) returns (r: Option<TagRecord>)
      requires TableValid(tags) && (withItems ==> Valid())
      modifies this`tags, this`tagMap
      ensures tags == if autoCreate then WithTag(old(tags), tagName, now) else old(tags)
      ensures TableValid(tags) && (old(Valid()) ==> Valid())
      ensures !withItems ==> tagMap == old(tagMap)
      ensures autoCreate ==> r.Some? && r.value.tag.name == tagName
      ensures !autoCreate ==> (r.None? <==> !Named(old(tags), tagName))
      ensures r == match FindTag(tags, tagName)
        case None => None
        case Some(i) => Some(Db().Record(tags[i], withItems))
      decreases if autoCreate && FindTag(tags, tagName).None? then 1 else 0
    {
      var data := FindTag(tags, tagName);
      if data.Some? {
        var tag := tags[data.value];
        if withItems {
          var withList := AppendItemsToTag(tag);
          r := Some(withList);
        } else {
          r := Some(TagRecord(tag, []));
        }
      } else {
        r := None;
        if autoCreate {
          ghost var t0 := tags;
          WithTagEffect(t0, tagName, now);
          WithTagKeepsIndex(t0, tagName, now);
          var _ := CreateTag(tagName, now);
          assert TableValid(tags) && ItemTagMap(tags) == ItemTagMap(t0);
          assert old(Valid()) ==> Valid();
          assert FindTag(tags, tagName).Some?;
          r := GetTag(tagName, autoCreate, withItems, now);
        }
      }
    }

    /** The body of the loop appendItemsToTag and getItemsByTag share: trim the field and,
        unless PHP considers it empty, look it up; getItemsByTag (keepFalse false) also drops a
        'false' lookup. */
    method LookUpField(field: string, keepFalse: bool) returns (found: seq<ItemLookup>)
      requires Valid()
      modifies this`tagMap
      ensures Valid() && found == Db().ResolveOne(field, keepFalse)
    {
      found := [];
      var objectId := Trim(field);
      if !PhpEmpty(objectId) {
        var item := GetItemByObjectId(objectId);
        if keepFalse || !item.NoType? {
          found := [item];
        }
      }
    }

    /** The loop appendItemsToTag and getItemsByTag share, over the fields of a list. */
    method LookUpFields(fields: seq<string>, keepFalse: bool) returns (items: seq<ItemLookup>)
      requires Valid()
      modifies this`tagMap
      ensures Valid() && items == Db().Resolve(fields, keepFalse)
    {
      ghost var db := Db();
      items := [];
      for j := 0 to |fields|
        invariant Valid() && Db() == db
        invariant items == db.Resolve(fields[..j], keepFalse)
      {
        db.ResolvePrefix(fields, j, keepFalse);
        var found := LookUpField(fields[j], keepFalse);
        items := items + found;
      }
      assert fields[..|fields|] == fields;
    }

    /** appendItemsToTag: look up every non-empty trimmed field of the tag's list; 'false'
        results are kept. */
    method AppendItemsToTag(tag: Tag) returns (r: TagRecord)
      requires Valid()
      modifies this`tagMap
      ensures Valid() && r == Db().Record(tag, true)
    {
      var thisItems := Explode(tag.photoIdList);
      var items := LookUpFields(thisItems, true);
      r := TagRecord(tag, items);
    }

    /** getItemsByTag: the items of the named tag's list; 'false' lookups are dropped, stubs for
        missing rows are kept; empty when the tag does not exist. */
    method GetItemsByTag(tagName: string) returns (r: seq<ItemLookup>)
      requires Valid()
      modifies this`tagMap
      ensures Valid()
      ensures r == match FindTag(tags, tagName)
        case None => []
        case Some(i) => Db().Resolve(Fields(tags[i]), false)
    {
      r := [];
      var tagData := FindTag(tags, tagName);
      if tagData.Some? {
        var foundItems := Explode(tags[tagData.value].photoIdList);
        r := LookUpFields(foundItems, false);
      }
    }

    /** getAllTags: every row in table order, with items attached when asked for. */
    method GetAllTags(withItems: bool) returns (r: seq<TagRecord>)
      requires Valid()
      modifies this`tagMap
      ensures Valid()
      ensures |r| == |tags| && forall i :: 0 <= i < |tags| ==> r[i] == Db().Record(tags[i], withItems)
    {
      ghost var db := Db();
      r := [];
      for i := 0 to |tags|
        invariant Valid() && Db() == db
        invariant |r| == i && forall k :: 0 <= k < i ==> r[k] == db.Record(db.tags[k], withItems)
      {
        var data := RecordOf(tags[i], withItems);
        r := r + [data];
      }
    }

    /** The body of getAllTags' loop: the row, with its items when asked for. */
    method RecordOf(tag: Tag, withItems: bool) returns (data: TagRecord)
      requires Valid()
      modifies this`tagMap
      ensures Valid() && data == Db().Record(tag, withItems)
    {
      data := TagRecord(tag, []);
      if withItems {
        data := AppendItemsToTag(tag);
      }
    }

    /** setTagItems: render the list and write it to the row with that name's id. */
    method SetTagItems(tagName: string, items: seq<string>) returns (ok: bool)
      modifies this`tags
      ensures ok <==> Named(old(tags), tagName)
      ensures tags == SetList(old(tags), tagName, items)
    {
      var thisTagId := GetTagId(tagName);
      ok := false;
      if thisTagId.Some? {
        var saveString := Implode(items) + ",";
        saveString := CollapseCommas(saveString);
        tags := WriteList(tags, thisTagId.value, saveString);
        ok := true;
      }
    }

    /** manipulateItemOnTag: fetch the tag (creating it when missing), add or remove the object
        ID on its exploded list, and store the list. */
    method ManipulateItemOnTag(tagName: string, whatToDo: string, objectId: string, now: int) returns (ok: bool)
      requires TableValid(tags)
      modifies this`tags, this`tagMap
      ensures ok && TableValid(tags)
      ensures tags == Manipulate(old(tags), tagName, whatToDo, objectId, now)
      ensures tagMap == old(tagMap)
    {
      ghost var t0 := tags;
      WithTagEffect(t0, tagName, now);
      ManipulateKeepsTable(t0, tagName, whatToDo, objectId, now);
      var thisTagData := GetTag(tagName, true, false, now);
      ghost var t1 := tags;
      ghost var k := FindTag(t1, tagName).value;
      assert thisTagData.value.tag == t1[k];
      // getTag with auto-create always returns the row, so the is_array test always passes.
      var thisTagItems := Explode(thisTagData.value.tag.photoIdList);
      assert thisTagItems == Fields(t1[k]);
      thisTagItems := EditItems(thisTagItems, whatToDo, objectId);
      ok := SetTagItems(tagName, thisTagItems);
      assert tags == Manipulate(t0, tagName, whatToDo, objectId, now);
    }

    /** The add or remove step of manipulateItemOnTag on the exploded list. */
    method EditItems(items: seq<string>, whatToDo: string, objectId: string) returns (r: seq<string>)
      ensures r == Edit(items, whatToDo, objectId)
    {
      r := items;
      var setKey := Search(r, objectId);
      if whatToDo == "add" {
        if setKey.None? {
          r := r + [objectId];
        }
      } else if whatToDo == "remove" {
        if setKey.Some? {
          r := r[..setKey.value] + r[setKey.value + 1..];
        }
      }
    }

    /** One of setItemTags' foreach loops: manipulateItemOnTag with the same action and object
        ID for each name in turn. */
    method ManipulateEach(names: seq<string>, whatToDo: string, objectId: string, now: int)
      requires TableValid(tags)
      modifies this`tags, this`tagMap
      ensures TableValid(tags) && tagMap == old(tagMap)
      ensures tags == ApplyEach(old(tags), names, whatToDo, objectId, now)
    {
      for j := 0 to |names|
        invariant TableValid(tags) && tagMap == old(tagMap)
        invariant tags == ApplyEach(old(tags), names[..j], whatToDo, objectId, now)
      {
        var _ := ManipulateItemOnTag(names[j], whatToDo, objectId, now);
        assert names[..j + 1][..j] == names[..j];
      }
      assert names[..|names|] == names;
    }

    /** setItemTags: false, with nothing changed, when no tag lists the object ID; otherwise add
        it to each desired tag it is missing from, remove it from each current tag not desired,
        and drop the cache. */
    method SetItemTags(objectId: string, desired: seq<string>, now: int) returns (ok: bool)
      requires Valid()
      modifies this`tags, this`tagMap
      ensures Valid()
      ensures ok <==> objectId != "" && Listed(old(tags), objectId)
      ensures !ok ==> tags == old(tags) && tagMap == Some(ItemTagMap(tags))
      ensures ok ==> tags == Reconcile(old(tags), objectId, desired, now) && tagMap == None
      ensures ok ==> forall n :: n in desired ==> Named(tags, n)
      ensures ok ==> forall i :: 0 <= i < |tags| ==> (objectId in Fields(tags[i]) <==> tags[i].name in desired)
      ensures forall y :: y != objectId && y != "" ==> TagsListing(tags, y) == TagsListing(old(tags), y)
    {
      var currentTags := GetTagsByObjectId(objectId);
      if currentTags.None? {
        return false;
      }
      ghost var t0 := tags;
      ItemTagMapEntry(t0, objectId);
      var tagDiffAdd := Diff(desired, currentTags.value);
      var tagDiffRemove := Diff(currentTags.value, desired);
      ManipulateEach(tagDiffAdd, "add", objectId, now);
      ManipulateEach(tagDiffRemove, "remove", objectId, now);
      ReconcileMembership(t0, objectId, desired, now);
      IndexKeys(t0, objectId);
      forall y | y != objectId && y != ""
        ensures TagsListing(tags, y) == TagsListing(t0, y)
      {
        ReconcileKeepsOthers(t0, objectId, desired, now, y);
      }
      tagMap := None;
      ok := true;
    }

    /** removeAllItemTags: setItemTags with no tags. Afterwards no tag lists the object ID, so
        getTagsByObjectId returns false and getItem reports no tags for it. */
    method RemoveAllItemTags(objectId: string, now: int) returns (ok: bool)
      requires Valid()
      modifies this`tags, this`tagMap
      ensures Valid()
      ensures ok <==> objectId != "" && Listed(old(tags), objectId)
      ensures !ok ==> tags == old(tags)
      ensures ok ==> tags == Reconcile(old(tags), objectId, [], now)
      ensures objectId != "" ==> !Listed(tags, objectId)
      ensures forall t: ItemType, id: int :: Db().View(t, id).Some? && Db().View(t, id).value.objectId == objectId ==>
        Db().View(t, id).value.tags == []
    {
      ok := SetItemTags(objectId, [], now);
      if ok {
        ItemTagMapEntry(old(tags), objectId);
        RemoveAll(old(tags), objectId, now);
        ItemTagMapEntry(tags, objectId);
      }
      if objectId != "" {
        TagsListingUnlisted(tags, objectId);
      }
    }

  }
}

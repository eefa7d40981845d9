# Shotwell Api: a verified model

This project models the `Api` class of the Shotwell PHP library (`src/Api.php`). The class reads a
Shotwell SQLite database through three tables:

- `PhotoTable` and `VideoTable`: rows keyed by numeric id, of which the model keeps `filename` and
  `rating`;
- `TagTable`: rows with an `id`, a unique `name`, a `photo_id_list` and a `time_created`, kept in
  insertion order. The `photo_id_list` is a comma-separated list of object IDs with a trailing
  comma.

The class also keeps a lazily filled cache, `tagMap`. It maps each object ID to the names of the
tags that list it.

The model has seven modules, in dependency order:

- `Wrappers`: the `Option` type. `None` stands for PHP's `false` or `null` results.
- `PhpString`: the PHP string built-ins the class calls: `str_pad(..., STR_PAD_LEFT)`, `ltrim` with
  a character list, and `trim`. `RTrim` is not a built-in the class calls. It models the right half
  of `trim`.
- `Hex`: `dechex` on a signed 64-bit integer and `hexdec`, which skips characters that are not hex
  digits.
- `ObjectId`: the object-ID methods of the class (`getTypeByObjectId`, `getObjectIdByNumericId`,
  `getObjectIdPartIdByType`, `getNumericIdByObjectId`). They read no table, so they are functions.
  An ID is the type prefix (`thumb` or `video-`) followed by `dechex(id)` left-padded with `0` to 16
  characters.
- `IdList`: the membership list.
  - Parsing is `explode(',')`.
  - The edit `manipulateItemOnTag` applies to the exploded array: append unless `array_search`
    finds a copy, or `unset` the first copy.
  - Rendering, as `setTagItems` does it, is `implode(',') . ','` followed by one left-to-right pass
    of `str_replace(',,', ',')`.
- `TagIndex`: the `Tag` row and the inverted index that `getItemTagMap` builds. Beside it is an
  independent reference definition of an index entry, `TagsListing`: the names of the tags that
  list an ID, in table order.
- `TagStore`: the writes to `TagTable`, each as a function from the old table to the new one:
  - `createTag` (`WithTag`);
  - `setTagItems` (`SetList`);
  - `manipulateItemOnTag` (`Manipulate`);
  - the two `array_diff` loops of `setItemTags` (`ApplyEach`, `Reconcile`).
- `Shotwell`: the class `Api`.
  - Its fields are the three tables and the cache.
  - Its methods are the methods of the PHP class that read or write the tables or the cache. Each
    is proved against the functions above.
  - The datatype `Database` gathers the read-only views: `getItem`, `getItemByObjectId`, and the
    item lists that `appendItemsToTag` and `getItemsByTag` resolve.

The invariant `Api.Valid()` holds that the table constraints hold (unique names, unique ids) and
that a filled cache is exactly the index of the current table. Every public method keeps it. The
private `setTagItems` and `manipulateItemOnTag` write the table without touching the cache, so they
leave a filled cache stale. `setItemTags`, their only public caller, drops the cache afterwards.

Three behaviours of the code that its names and comments do not suggest, all kept by the model:

- `getItemsByTag` keeps the stub that `getItemByObjectId` returns for an ID with a known prefix but
  no row. That stub is an array holding only the type and the object ID, so it passes the
  `is_array` test (`src/Api.php:446-448`). Only a `false` lookup, from an ID with no known prefix,
  is dropped.
- `empty("0")` is true in PHP, so a field `0` is skipped by `appendItemsToTag` and `getItemsByTag`.
  `getItemTagMap` still indexes it, because it tests `strlen > 0`.
- `setItemTags` returns `false` for an object ID that no tag lists, whether or not the item exists.
  It decides from `getTagsByObjectId`, whose docblock (`src/Api.php:126`) says that `false` means
  the object does not exist. In the code `false` means only that no tag lists the ID.

## Model

| member | source | states |
|---|---|---|
| Hex.DecHex | src/Api.php:650 | definition: dechex prints a negative integer as its unsigned 64-bit value; see ObjectId.DecHexFits and Hex.HexDecOfHexDigits |
| Hex.HexDec | src/Api.php:688 | definition: hexdec skips non-hex characters; see Hex.HexDecOfHexDigits and Hex.HexDecSkipsZeroPrefix |
| Hex.HexDigits | src/Api.php:650 | dechex's digits are lower-case hexadecimal, at least one, with no leading zero for a positive value |
| PhpString.PadLeft | src/Api.php:650 | str_pad left-pads to the width with the pad character and keeps the string as the suffix; a string at least as wide is unchanged |
| PhpString.LTrim | src/Api.php:681-687 | ltrim drops exactly the longest prefix of listed characters, so the result is a suffix that does not start with one |
| PhpString.RTrim | src/Api.php:419 | the right half of trim: drops exactly the longest suffix of listed characters |
| PhpString.Trim | src/Api.php:445 | the result is a slice of the input such that every character dropped before or after it is a trim character and its own first and last characters are not: exactly the input with both trimmed ends removed |
| PhpString.TrimmedSlice | src/Api.php:445 | stripping a prefix and then a suffix of listed characters leaves a slice of the input |
| Hex.HexDecOfHexDigits | src/Api.php:688 | hexdec reads back the value dechex printed |
| Hex.HexDigitsLength | src/Api.php:650 | a value below 16^k prints in at most k digits |
| Hex.HexDecOfZeros | src/Api.php:688 | hexdec of zeros and non-digits is 0 |
| Hex.HexDecSkipsZeroPrefix | src/Api.php:688 | leading zeros and non-digits do not change what hexdec reads |
| Hex.HexDecOfPadded | src/Api.php:650 | the zero padding does not change what hexdec reads |
| Hex.HexDecOfTrimmed | src/Api.php:681-688 | the ltrim(' 0') before hexdec never changes the value read |
| ObjectId.FirstMatch | src/Api.php:629-634 | the foreach with break returns a type whose prefix matches, or false when no entry matches |
| ObjectId.FirstMatchIsFirst | src/Api.php:629-634 | the break makes the result the first entry that matches: no earlier entry matches, and false exactly when none does |
| ObjectId.Prefix | src/Api.php:31-34 | definition of the typeMap entry of a type, as getObjectIdByNumericId reads it at src/Api.php:649; see ObjectId.PrefixesDisjoint and ObjectId.PrefixOfTypeName |
| ObjectId.HasPrefix | src/Api.php:630 | definition of the prefix test; see ObjectId.TypeOfIsPrefixMatch and ObjectId.FirstMatchIsFirst |
| ObjectId.TypeOf | src/Api.php:626-637 | getTypeByObjectId gives a type whose prefix the ID starts with, and false exactly when neither prefix matches |
| ObjectId.PrefixLookup | src/Api.php:661-667 | the typeMap lookup succeeds exactly for a declared type and returns that type's prefix |
| ObjectId.PrefixOfTypeName | src/Api.php:661-667 | getObjectIdPartIdByType gives the prefix for PHOTO and VIDEO and false for any other name |
| ObjectId.PrefixesDisjoint | src/Api.php:31-34 | neither prefix is a prefix of the other, so at most one type matches any string |
| ObjectId.TypeOfIsPrefixMatch | src/Api.php:626-637 | getTypeByObjectId returns t exactly when the ID starts with t's prefix |
| ObjectId.Pow16Of16 | src/Api.php:650 | 16^16 is 2^64, so dechex of any 64-bit value fits 16 digits |
| ObjectId.DecHexFits | src/Api.php:650 | the padding never has to truncate: dechex of a PHP integer is at most 16 digits |
| ObjectId.EncodeParts | src/Api.php:647-652 | an encoded ID starts with the type prefix, followed by the padded digits |
| ObjectId.PaddedDigits | src/Api.php:650 | the padded part is exactly 16 lower-case hexadecimal digits |
| ObjectId.EncodeShape | src/Api.php:647-652 | an encoded ID is the prefix followed by exactly 16 lower-case hexadecimal digits |
| ObjectId.Encode | src/Api.php:647-652 | definition of getObjectIdByNumericId for a known type; see ObjectId.EncodeShape, ObjectId.DecodeEncode and ObjectId.EncodeInjective |
| ObjectId.EncodeByName | src/Api.php:647-652 | getObjectIdByNumericId with a type name is Encode for a known name |
| ObjectId.EncodeByUnknownName | src/Api.php:649-650 | with a name that is not a key of typeMap the result is the 16 padded digits alone, which no type prefix matches |
| ObjectId.NumericIdOf | src/Api.php:676-692 | definition of getNumericIdByObjectId; see ObjectId.DecodeEncode |
| ObjectId.EncodedDigits | src/Api.php:650 | the 16 digits of an encoded ID, read exactly, are the number as an unsigned 64-bit value |
| ObjectId.DecodeEncode | src/Api.php:676-692 | decoding an encoded ID gives back its type, and its number when that is not negative; a negative number comes back above PHP_INT_MAX, so it is no PHP integer |
| ObjectId.EncodeInjective | src/Api.php:647-652 | two different (type, number) pairs never encode to the same ID |
| ObjectId.Examples | tests/ApiTest.php:155-162 | photo 1 and video 1 encode as thumb0000000000000001 and video-0000000000000001; 'a' has no type and no number; an unknown type name has no prefix |
| IdList.Explode | src/Api.php:196 | explode always yields at least one field |
| IdList.ExplodeCommaFree | src/Api.php:196 | no field of explode holds a comma |
| IdList.ImplodeExplode | src/Api.php:196 | implode(',') undoes explode(',') on every string |
| IdList.ExplodeOfCommaFree | src/Api.php:196 | a comma-free string explodes to itself alone |
| IdList.ExplodeAfterField | src/Api.php:196 | a comma after a comma-free field ends that field |
| IdList.Implode | src/Api.php:234 | definition of implode(','); see IdList.ExplodeImplode and IdList.ImplodeExplode |
| IdList.ImplodeSnoc | src/Api.php:234 | implode of one more item adds a comma and the item |
| IdList.ExplodeImplode | src/Api.php:234 | explode(',') undoes implode(',') on a non-empty list of comma-free items |
| IdList.CollapseCommas | src/Api.php:237 | the single str_replace pass never lengthens the string, keeps it empty or non-empty, and keeps its first and last characters |
| IdList.NonEmpty | src/Api.php:608-612 | dropping empty fields keeps every non-empty field as often as it occurs |
| IdList.Search | src/Api.php:197 | array_search gives the first index holding the ID, and false exactly when the ID is absent |
| IdList.Edit | src/Api.php:196-207 | definition of the edit manipulateItemOnTag applies; see IdList.EditCounts and IdList.RemoveKeepsOrder |
| IdList.EditCounts | src/Api.php:197-207 | 'add' leaves exactly one copy when there was none and adds none otherwise, 'remove' takes away one copy, and no other item changes count |
| IdList.EditCommaFree | src/Api.php:197-207 | editing a comma-free list with a comma-free ID keeps it comma-free |
| IdList.RemoveAtCount | src/Api.php:206 | unset removes one copy of the element at that index |
| IdList.RemoveKeepsOrder | src/Api.php:204-207 | 'remove' unsets exactly the first copy and keeps every other element in order |
| IdList.NonEmptyAppend | src/Api.php:608-612 | dropping empty fields commutes with concatenation |
| IdList.CollapseFields | src/Api.php:237 | the str_replace pass keeps the first field and the non-empty later fields |
| IdList.NonEmptyOfCollapse | src/Api.php:237 | the str_replace pass keeps the non-empty fields, in order |
| IdList.Render | src/Api.php:234-237 | definition of the string setTagItems stores; see IdList.RenderParse, IdList.RenderCount and IdList.RenderNoDouble |
| IdList.RenderParse | src/Api.php:234-237 | parsing the stored list and dropping empty fields gives back the non-empty items, in order |
| IdList.RenderCount | src/Api.php:234-237 | the stored list holds each non-empty ID as often as the array did |
| IdList.RenderEndsWithComma | src/Api.php:234-237 | the stored list always ends with a comma |
| IdList.CollapseLeavesNoDouble | src/Api.php:237 | one str_replace pass leaves ',,' exactly when the input held ',,,' |
| IdList.JoinTriple | src/Api.php:234 | joining a comma-free item makes a ',,,' only when what follows starts with ',,' or holds one |
| IdList.JoinedNoTriple | src/Api.php:234 | joining comma-free items with no two adjacent empty ones makes no ',,,' |
| IdList.RenderNoDouble | src/Api.php:234-237 | such items are stored with no ',,' |
| IdList.ExplodeInnerNonEmpty | src/Api.php:196 | a string with no ',,' has no empty inner field |
| IdList.PersistKeepsNoDouble | src/Api.php:196-237 | when the stored list held no ',,', an add or remove stores none either |
| TagStore.ManipulateNoDouble | src/Api.php:190-214 | when no stored list held ',,', manipulateItemOnTag with a non-empty, comma-free ID leaves none in any row |
| TagStore.ApplyEachNoDouble | src/Api.php:166-172 | the same for a foreach of manipulateItemOnTag calls |
| TagStore.ReconcileNoDouble | src/Api.php:152-177 | the same for both loops of setItemTags |
| TagIndex.Lookup | src/Api.php:611 | a key not yet in the map has the empty entry, which `$ret[$objectId][]` starts from; getItem turns a `false` tag list into the same `[]` (src/Api.php:341-343) |
| TagIndex.IndexFields | src/Api.php:609-613 | definition of getItemTagMap's inner loop; see TagIndex.IndexFieldsKeys, TagIndex.IndexFieldsEntry and TagIndex.IndexFieldsPrefix |
| TagIndex.IndexFieldsPrefix | src/Api.php:609-613 | the inner loop's step appends the tag name to the field's entry when the field is non-empty |
| TagIndex.ItemTagMapPrefix | src/Api.php:607-615 | the outer loop's step indexes one more row |
| TagIndex.Copies | src/Api.php:611 | k copies of a name |
| TagIndex.CopiesCount | src/Api.php:611 | k copies hold the name k times and nothing else |
| TagIndex.IndexFieldsKeys | src/Api.php:609-613 | a tag adds as keys exactly its non-empty fields |
| TagIndex.IndexFieldsEntry | src/Api.php:609-613 | a tag adds its name once per listing to each non-empty field's entry |
| TagIndex.ListedSnoc | src/Api.php:607-615 | a table lists an ID when its earlier rows or its last row do |
| TagIndex.ItemTagMapSnoc | src/Api.php:607-615 | the last row adds its non-empty fields as keys and its name once per listing |
| TagIndex.ItemTagMap | src/Api.php:602-617 | definition of the index getItemTagMap builds; see TagIndex.ItemTagMapEntry and TagIndex.IndexKeys |
| TagIndex.TagsListing | src/Api.php:602-617 | independent reference definition of an index entry; see TagIndex.ItemTagMapEntry |
| TagIndex.ItemTagMapEntry | src/Api.php:602-617 | the keys are exactly the non-empty IDs some tag lists, and each entry is the names of the listing tags in table order, once per listing |
| TagIndex.ListedUnderSnoc | src/Api.php:607-615 | a name lists an ID when an earlier row or the last row with that name does |
| TagIndex.TagsListingNames | src/Api.php:602-617 | a name is in an entry exactly when a row of that name lists the ID |
| TagIndex.TagsListingSnoc | src/Api.php:607-615 | each row adds its own listings to its name's count |
| TagIndex.TagsListingCounts | src/Api.php:602-617 | a uniquely named tag's name occurs in an entry as often as that tag lists the ID |
| TagIndex.TagsListingLast | src/Api.php:607-615 | the last row's name, if no earlier row carries it, counts as often as that row lists the ID |
| TagIndex.TagsListingAbsent | src/Api.php:602-617 | a name no row carries never occurs in an entry |
| TagIndex.TagsListingUnlisted | src/Api.php:602-617 | an ID no row lists has an empty entry |
| TagIndex.IndexKeys | src/Api.php:602-617 | every key is non-empty and comma-free and has a non-empty entry |
| TagIndex.TagsListingKept | src/Api.php:602-617 | an entry depends only on the rows' names and counts of the ID, so keeping both and appending rows that do not list the ID keeps the entry |
| TagIndex.AppendEmptyTag | src/Api.php:531 | a tag created with an empty list leaves the index unchanged |
| TagIndex.IndexIgnoresIds | src/Api.php:602-617 | the index depends only on the names and lists of the rows |
| TagStore.FindTag | src/Api.php:467-492 | the lookup by name finds a row of that name, and none exactly when no row has the name |
| TagStore.FindTagUnique | src/Api.php:467-492 | under the unique constraint it finds the only row of that name |
| TagStore.MaxId | src/Api.php:520-536 | the largest id of a non-empty table: at least every row's id, and some row's id |
| TagStore.NextId | src/Api.php:520-536 | SQLite's rowid for the inserted row: 1 in an empty table, otherwise some row's id plus one and above every id |
| TagStore.NextIdAfterThree | tests/ApiTest.php:95 | after ids 1, 2 and 3 the new tag gets id 4 |
| TagStore.WithTag | src/Api.php:520-536 | definition of createTag's write; see TagStore.WithTagEffect and TagStore.WithTagKeepsIndex |
| TagStore.SetList | src/Api.php:224-248 | definition of setTagItems' write; see TagStore.SetListEffect |
| TagStore.WriteList | src/Api.php:230-242 | the UPDATE rewrites the list of the rows with that id and nothing else |
| TagStore.Diff | src/Api.php:161-164 | array_diff keeps only elements of the first list that are not in the second |
| TagStore.DiffCount | src/Api.php:161-164 | array_diff keeps every element not in the second list as often as it occurs, and drops the others |
| TagStore.DiffSnoc | src/Api.php:161-164 | array_diff keeps the order of the first list: one more element is appended to the result exactly when the second list does not hold it |
| TagStore.DiffOfDisjoint | src/Api.php:161-164 | array_diff against a list sharing no element returns the first list unchanged |
| TagStore.ExtendsTrans | src/Api.php:166-172 | keeping the rows is transitive over successive writes |
| TagStore.ExtendsNamed | src/Api.php:166-172 | a name that exists stays present |
| TagStore.WithTagEffect | src/Api.php:520-536 | createTag keeps the constraints, makes the name present, appends one row of that name only when it was missing, and changes no existing row |
| TagStore.WithTagKeepsIndex | src/Api.php:520-536 | createTag leaves the index as it was |
| TagStore.SetListEffect | src/Api.php:224-248 | setTagItems keeps the constraints and rewrites the rendered list of the named row only |
| TagStore.Manipulate | src/Api.php:190-214 | definition of manipulateItemOnTag's write; see TagStore.ManipulateEffect and TagStore.ManipulateKeepsOthers |
| TagStore.ManipulateKeepsTable | src/Api.php:190-214 | manipulateItemOnTag keeps the constraints and every row's id and name, and the tag exists afterwards |
| TagStore.ManipulateShape | src/Api.php:190-214 | manipulateItemOnTag appends a row only for a missing tag, and leaves rows of other names as they were |
| TagStore.ManipulateCount | src/Api.php:190-214 | the tag's count of the ID becomes the edited count (none before for a tag it creates) |
| TagStore.ManipulateEffect | src/Api.php:190-214 | all of the above in one predicate |
| TagStore.OthersKeptTrans | src/Api.php:166-172 | leaving other IDs alone is transitive over successive writes |
| TagStore.ManipulateKeepsOthers | src/Api.php:190-214 | manipulateItemOnTag for one ID lists every other non-empty ID as often as before in each old row and not at all in a row it creates |
| TagStore.ApplyEach | src/Api.php:166-172 | definition of one foreach loop of setItemTags; see TagStore.AddPhase, TagStore.RemovePhase and TagStore.ApplyEachKeepsOthers |
| TagStore.ApplyEachKeepsTable | src/Api.php:166-172 | a loop of manipulateItemOnTag keeps the constraints and the old rows' ids and names |
| TagStore.ApplyEachKeepsOthers | src/Api.php:166-172 | a loop of manipulateItemOnTag for one ID leaves every other ID's listings alone |
| TagStore.AddStep | src/Api.php:166-168 | one more 'add' keeps the add phase's guarantee |
| TagStore.AddPhase | src/Api.php:166-168 | after the add loop every name exists and lists the ID, rows of other names are untouched, and new rows carry one of the names |
| TagStore.RemoveStep | src/Api.php:170-172 | one more 'remove' keeps the remove phase's guarantee |
| TagStore.RemovePhase | src/Api.php:170-172 | after the remove loop over present names no row is added, rows of other names are untouched, and each row loses one copy per occurrence of its name |
| TagStore.ReconcileSetup | src/Api.php:154-164 | an indexed ID is non-empty and comma-free, its current tags exist, and each occurs as often as it lists the ID |
| TagStore.MembershipOf | src/Api.php:161-172 | after both loops a row lists the ID exactly when its name is desired |
| TagStore.NamesOf | src/Api.php:161-168 | after both loops every desired tag exists |
| TagStore.ReconcilePhases | src/Api.php:161-172 | the two loops give the add and remove guarantees |
| TagStore.Reconcile | src/Api.php:152-177 | definition of setItemTags' write; see TagStore.ReconcileMembership, TagStore.ReconcileIndex and TagStore.ReconcileKeepsOthers |
| TagStore.ReconcileMembership | src/Api.php:152-177 | setItemTags keeps the constraints, every desired tag exists afterwards, and a tag lists the ID exactly when its name is desired |
| TagStore.NewRowsOf | src/Api.php:161-172 | appended rows carry a desired name and a non-empty list |
| TagStore.UntouchedOf | src/Api.php:161-172 | a row whose membership already agreed is left as it was |
| TagStore.ReconcileUntouched | src/Api.php:152-177 | tags outside the two diffs are left exactly as they were; rows are only appended, with desired names |
| TagStore.IndexOfMembership | src/Api.php:602-617 | such a table indexes the ID under exactly the desired names |
| TagStore.ReconcileIndex | src/Api.php:152-177 | afterwards the ID's entry names exactly the desired tags, and the ID leaves the index only for an empty desired list |
| TagStore.ReconcileKeepsOthers | src/Api.php:152-177 | setItemTags for one ID leaves every other non-empty ID's entry as it was: same listing tags, same index entry, key present exactly when before |
| TagStore.DiffAllIn | src/Api.php:161-164 | array_diff is empty when every element occurs in the other list |
| TagStore.ReconcileIdempotent | src/Api.php:152-177 | calling setItemTags again with the same non-empty tags changes nothing |
| TagStore.RemoveAll | src/Api.php:303-306 | after removeAllItemTags no row lists the ID and the ID has left the index |
| Shotwell.PhpEmpty | src/Api.php:421 | definition of empty() on a string: the empty string and "0" |
| Shotwell.IsNumeric | src/Api.php:262 | definition of the is_numeric test on the rating, restricted to integer strings; see Shotwell.Api.SetItemRating |
| Shotwell.Unsigned | src/Api.php:262 | definition: the rating string without its sign; helper of Shotwell.IsNumeric and Shotwell.NumericValue |
| Shotwell.DigitsValue | src/Api.php:283-289 | definition: the decimal value of a digit string; helper of Shotwell.NumericValue |
| Shotwell.NumericValue | src/Api.php:283-289 | the integer value of the rating string bound by the UPDATE: non-positive with a minus sign and non-negative otherwise |
| Shotwell.NumericValueExamples | tests/ApiTest.php:153-183 | "5" is stored as 5, "-1" as -1 and "+12" as 12; "", "-" and "a" are not numeric |
| Shotwell.Database.Table | src/Api.php:318-322 | definition: PhotoTable for a photo and VideoTable for a video; see Shotwell.Database.View |
| Shotwell.Database.View | src/Api.php:316-354 | getItem finds exactly the rows that exist, with their encoded object ID, type, filename, rating, and the reference listing of their tags |
| Shotwell.Database.ItemByObjectId | src/Api.php:363-383 | false exactly when no prefix matches; a stub with the given ID when that number names no row; otherwise the row decoded from the ID, reporting the ID as given, with the tags of the canonical ID rebuilt from the row (src/Api.php:339-340) |
| Shotwell.Database.ResolveOne | src/Api.php:416-427 | one field yields at most one item |
| Shotwell.Database.Resolve | src/Api.php:416-427 | a list yields at most one item per field |
| Shotwell.Database.ResolveOneSpec | src/Api.php:444-451 | a field yields an item exactly when its trimmed value is not PHP-empty and, for getItemsByTag, has a known prefix; the item is the lookup of the trimmed value |
| Shotwell.Database.ResolveDropsFalse | src/Api.php:436-456 | getItemsByTag never returns a false lookup |
| Shotwell.Database.Record | src/Api.php:399-402 | definition of a returned tag row; see Shotwell.Api.RecordOf and Shotwell.Database.ResolveDropsFalse |
| Shotwell.Database.ResolvePrefix | src/Api.php:442-452 | one more field of the loop appends that field's items |
| Shotwell.Database.EncodedLookup | src/Api.php:363-383 | looking up an encoded ID finds the row it was built from; a negative id names no row and yields the stub |
| Shotwell.Api.constructor | src/Api.php:57-64 | the tables as stored, the cache empty, the invariant established |
| Shotwell.Api.GetTagId | src/Api.php:501-511 | the id of the row with that name, false exactly when no row has it |
| Shotwell.Api.GetItemTagMap | src/Api.php:602-617 | the nested loops build exactly the index |
| Shotwell.Api.GetTagsByObjectId | src/Api.php:128-141 | fills the cache with the index, returns false exactly when no tag lists the non-empty ID, and otherwise the reference listing |
| Shotwell.Api.GetItem | src/Api.php:316-354 | returns the view of the row, or none when it does not exist; the invariant is kept |
| Shotwell.Api.GetItemByObjectId | src/Api.php:363-383 | returns the decoded lookup |
| Shotwell.Api.SetItemRating | src/Api.php:260-293 | a non-numeric rating throws before any write; false with no write when the ID has no prefix or names no row; otherwise only that row's rating changes |
| Shotwell.Api.UpdateRating | src/Api.php:283-289 | the UPDATE changes only the rating of that row of that table |
| Shotwell.Api.CreateTag | src/Api.php:520-536 | true exactly when the name was missing; the table becomes createTag's result; the constraints and the invariant are kept |
| Shotwell.Api.GetTag | src/Api.php:467-492 | with auto-create the tag is returned, created if missing; without it, null exactly for an unknown name; items attached when asked for |
| Shotwell.Api.LookUpField | src/Api.php:419-424 | the loop body yields the field's items |
| Shotwell.Api.LookUpFields | src/Api.php:442-452 | the loop yields the list's items in order |
| Shotwell.Api.AppendItemsToTag | src/Api.php:416-427 | the tag with the items of its list, false lookups kept |
| Shotwell.Api.GetItemsByTag | src/Api.php:436-456 | the items of the named tag's list, false lookups dropped; empty for an unknown tag |
| Shotwell.Api.GetAllTags | src/Api.php:392-407 | every row in table order, with its items when asked for |
| Shotwell.Api.RecordOf | src/Api.php:399-402 | one row, with its items when asked for |
| Shotwell.Api.SetTagItems | src/Api.php:224-248 | true exactly when the tag exists; the named row gets the rendered list |
| Shotwell.Api.ManipulateItemOnTag | src/Api.php:190-214 | always true; the table becomes manipulateItemOnTag's result and keeps its constraints |
| Shotwell.Api.EditItems | src/Api.php:196-207 | the add or remove step on the exploded list computes exactly Edit, whose counts IdList.EditCounts gives |
| Shotwell.Api.ManipulateEach | src/Api.php:166-172 | one foreach loop: manipulateItemOnTag for each name in turn |
| Shotwell.Api.SetItemTags | src/Api.php:152-177 | false, with nothing changed, when no tag lists the ID; otherwise the reconciled table, every desired tag present, a tag lists the ID exactly when desired, every other ID listed by the same tags as before, and the cache dropped |
| Shotwell.Api.RemoveAllItemTags | src/Api.php:303-306 | afterwards no tag lists the ID and getItem reports no tags for it |

## Left out

- The PDO connection, the SQL text, the prepared statements and the constructor's `file_exists` and `is_readable` check (`src/Api.php:57-64`). The tables are in-memory values and the constructor takes them as they are stored.
- `time()` in `createTag`. The creation time is the parameter `now` of `CreateTag`, `GetTag`, `ManipulateItemOnTag`, `SetItemTags` and `RemoveAllItemTags`. One `setItemTags` call therefore gives every tag it creates the same time. PHP calls `time()` once per `createTag`, so those times can differ by a second or more.
- `getItemsByPath`, `searchAllWithCondition` (`src/Api.php:545-594`) and `getAll` (`src/Api.php:71-74`), which is `searchAllWithCondition()` without a condition. They depend on SQLite `LIKE` matching and on `UNION ALL` row order, which SQL does not fix.
- The plain readers `getAllPhotos`, `getAllVideos`, `getPhotoById` and `getVideoById` (`src/Api.php:76-118`). Each is one call of `getItem`: without an id for every row of the table, or with an id for one row. `GetItem` models that step for one row.
- Columns of the photo and video rows other than `id`, `filename` and `rating`.
- Hex.HexDec: does not model PHP's switch to a float above `PHP_INT_MAX`. The result is the exact, unbounded natural number. Such values do occur: `Encode` accepts a negative id, `dechex(-1)` prints `ffffffffffffffff`, and `hexdec` of that is a float near 1.8e19 in PHP. `NumericIdOf` returns the exact value, which is also above `PHP_INT_MAX`.
- ObjectId.DecodeEncode: promises the exact number back only for a non-negative id. For a negative id it promises only a value above `PHP_INT_MAX`. PHP's float and the model's value both name no row, so `Database.EncodedLookup` gives the stub in both. `EncodeInjective` is a fact about the strings. Its proof reads the digits as an exact number (`EncodedDigits`) and claims nothing about PHP's `hexdec`.
- IdList.Search: compares strictly, where `array_search` uses PHP's loose `==`. The two differ only when both strings are numeric ("01" and "1", "10" and "1e1"). An ID produced by `getObjectIdByNumericId` for a known type is never numeric. `setItemTags` and `removeAllItemTags` accept any string, though. So the membership contracts of `Manipulate`, `Reconcile`, `SetItemTags` and `RemoveAllItemTags` hold for PHP only for object IDs that are not numeric strings. Example: with the list `01,1,`, PHP's `setItemTags("1", [])` unsets `01` and leaves `1` listed.
- TagStore.Diff: compares strictly, as for `Search`, where `array_diff` compares string forms. For strings these are the same.
- Shotwell.IsNumeric: recognises only integer strings, an optional sign followed by decimal digits. `is_numeric` also accepts leading whitespace, decimals and exponents.
- Shotwell.NumericValue: gives the exact, unbounded integer of the rating string. SQLite stores an integer string outside the signed 64-bit range, such as "9223372036854775808", in the INTEGER rating column as a REAL. The model keeps the exact integer there, so `SetItemRating` promises the stored value only for ratings within the 64-bit range.
- ObjectId.Encode: takes an `ItemType`, so it covers only the two declared types. `getObjectIdByNumericId` with any other type name reads `typeMap[$type]` as `null`, with a warning. It then returns the 16 padded digits alone. `EncodeByName` models that path, and `EncodeByUnknownName` shows that its result has no type prefix. The warning is not modelled.
- TagStore.NextId: SQLite picks an unused rowid at random once the largest rowid is 2^63-1. The model's ids are unbounded integers and always take the largest id plus one.
- Shotwell.Database.Record: a tag whose list resolves to no item is shown with the empty item list. PHP leaves the `items` key unset then, and the model does not tell those two apart.
- Shotwell.Api.SetItemRating: the thrown exception is the outcome `NotNumeric`. The model has no exception.
- Shotwell.Api.ManipulateItemOnTag: its `is_array` test always passes, because `getTag` with auto-create always returns the row. The model takes that branch only.
- A `photo_id_list` that is `NULL` in the database, which the `isset` tests guard against. The model's list is always a string.
- Concurrency and the lack of a transaction around `setItemTags`' loop of updates. The model runs each call to completion.
- Some inline code is a helper method in the model: `LookUpField` and `LookUpFields` (shared by `appendItemsToTag` and `getItemsByTag`), `ManipulateEach` (each `foreach` of `setItemTags`), `EditItems` (the add or remove step of `manipulateItemOnTag`) and `RecordOf` (one row of `getAllTags`). The PHP code has them inline.

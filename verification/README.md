# Models and proofs for the download server

The server links a JSON library (cJSON with its patch utilities), the mongoose network
library and a TFTP server, and drives an update of a device through a state machine. This
project models the algorithms of these parts, with their branches, limits and errors, and
proves what they are for. To verify: `dafny verify dfyconfig.toml`.

The code that changes state keeps its form: the list mergesort and the child lists relink nodes
on the heap, the JSON printer fills a growing array and the parser moves a cursor, the WebSocket, chunked-body
and path algorithms work inside one buffer, the MD5 context and the TFTP server are classes
with their fields. Each such method is proved against a function, and the laws are proved
about the function.

| files | what they model |
|---|---|
| `Strings`, `Sort`, `Json`, `JsonEquality` | key order, the mergesort of child lists, trees and what they mean, the two equality tests and what they leave |
| `ChildList`, `Touches`, `LinkedJson`, `LinkedFields` | the linked list of children with one of them cached in `prev` of the first, and trees made of such lists |
| `JsonPointer`, `PointerEscapes`, `JsonPatch`, `JsonPatchPaths`, `JsonTargets`, `JsonPatchRoundTrip` | JSON pointers, JSON Patch (RFC 6902): making and applying, on values |
| `JsonPatchMeaning`, `JsonPatchLaws`, `LinkedPatchMeaning` | what each operation of a patch means on values, what follows for copy and move, and the same in memory |
| `LinkedPatch`, `LinkedPatchPaths`, `LinkedTidy`, `LinkedCreate`, `LinkedLoss`, `LinkedPatchLaw`, `LinkedPatchCases` | applying patches to trees in memory, what making them leaves of these, loss of children, the law there, and inputs that miss it |
| `JsonMergePatch`, `MergePaths`, `GeneratedMergePatch` | JSON Merge Patch (RFC 7396), on values |
| `LinkedMerge` | merging into trees in memory, and the laws there |
| `JsonStrings`, `JsonLiterals` | escapes, UTF-8, and what a string literal means |
| `JsonText`, `JsonLayout`, `JsonGrammar` | the serializer and the parser as functions, their round trip, how formatted text differs, and all texts of the grammar |
| `JsonPrinter`, `JsonParser` | print buffer and parse buffer on the heap |
| `Tftp`, `TftpBytes`, `TftpProtocol` | both ends of a TFTP transfer (RFC 1350), and their runs over a bad channel |
| `WebSocket`, `WebSocketIo`, `WebSocketBytes` | frames and reassembly (RFC 6455) |
| `Md5`, `Md5Bytes` | the streaming hash (RFC 1321) around its compression function |
| `Uri`, `UriSegments` | path normalisation (RFC 3986 section 5.2.4) |
| `Dns`, `DnsBytes` | names (RFC 1035) |
| `Coap`, `CoapIo`, `CoapBytes` | messages and the option list (RFC 7252) |
| `Chunked`, `ChunkedIo`, `ChunkedBytes` | chunked bodies (RFC 7230 section 4.1) |
| `Mqtt`, `MqttWriters`, `MqttBytes` | packets and the receive loop (MQTT 3.1.1) |
| `Update`, `UpdateRecord`, `UpdateServer` | the update state machine, every interleaving of its handlers |
| `Bytes`, `Options` | bytes, big- and little-endian numbers, options |

Where the code and what is written about it disagree, the model follows the code:

- `cJSON.h` asks for 5 characters more than the text for `cJSON_PrintPreallocated`; 2 are needed and enough.
- `encode_string_as_pointer` writes `~` as `~1` and leaves the first byte of the escape of `/` unwritten, so a key with either is not found again.
- `decode_pointer_inplace` stores the `/` of `~1` one place too far, and never moves the characters behind an escape: of `/a~1b` and `/~0a` it makes `a~/` and `~0` (`EscapesMisread`).
- `decode_array_index_from_pointer` tests the first character, not the current one, against `9`, and takes the empty element for 0.
- A move that cannot be put at `path` has taken the item out of the document already (`MoveLaw`).
- `cJSON_DetachItemViaPointer` and `detach_item_from_array` take `prev` of the first child for its predecessor, but since the first append it is the last child. Taking out the first of several children then makes the list an endless ring, and taking out the last leaves a freed child cached, behind which the next append is lost. Patches that turn a parsed `{"b":1}` into `{"a":1}`, or `{"a":1,"b":2}` into `{"a":3,"b":4}`, break the list this way, and so do merge patches (`RenameDamages`, `ReplacingBothDamages`, `MergeRenameDamages`, `SettingBothDamages`).
- `mg_http_handler` makes the protocol data anew on each receive, so `mg_handle_chunked` parses the body it has collapsed before as if it were chunks: `5\r\nhello\r\n` and then `0\r\n\r\n` never complete the body (`LastChunkLost`).
- `add_item_to_array` takes `prev` of the first child for the last one. `sort_list` and inserting do not keep it up: after an append out of order and a sort (by a `test` operation, by `create_patches`, by `generate_merge_patch`) it may be a child in the middle, and the next append loses the children behind it, with status 0 (`TestThenAddLoses`, `SortedSourceLoses`).
- `generate_merge_patch` sorts by `tolower` unless case counts, and walks by `strcmp`; below the top it always ignores case, on members `compare_json` has just sorted in the outer mode (`UpperCaseKeyLost`, `NestedTwinLost`).
- Without a `realloc`, `ensure` copies one character more than was printed, also from a block of size 0.
- `scanto` of the MQTT parser reads two bytes of a length without asking whether the packet has them.
- The payload of a `/tdr/run` request names the device current when the new thread runs, not the one current when it was started.
- `detach_path` ignores case also when the caller asked for case to count.
- A TFTP file whose length is a multiple of 512 never ends in success: `fread` behind the end is reported as an error.
- A timeout makes `send_error` overwrite the block in `m_buffer`; the retry carries the text of the error. Behind block 65535 the receiver acknowledges and drops blocks.
- The DNS encoder accepts labels of 64 to 127 bytes, which its own decoder refuses.
- The CoAP composer lets option deltas and lengths up to 65804 through, whose extension fields the parser reads modulo 2^16.
- `mg_send_ws_header` uses the 64-bit length form for 65535 bytes.
- One MD5 update of 2^32 bytes or more is counted modulo 2^32 bytes.
- An MQTT topic above 65535 bytes is cut when sent but counted whole in the SUBSCRIBE header.

## Model

| member | source | states |
|---|---|---|
| Strings.CompareZero | cJSON/cJSON_Utils.c:81-107 | a comparison gives 0 exactly for keys that are the same string once both are folded as the case mode asks |
| Strings.CompareFlip | cJSON/cJSON_Utils.c:81-107 | swapping the two keys turns the sign of the comparison around |
| Strings.LessTrans | cJSON/cJSON_Utils.c:81-107 | the strict order of keys is transitive, so sorting by it makes sense |
| Strings.FirstDifference | cJSON/cJSON_Utils.c:81-107 | the first character that differs once folded decides the order of two keys, and a key comes before its extensions |
| Strings.FoldsCapitals | cJSON/cJSON_Utils.c:81-107 | ignoring case changes the 26 capitals into their small letters, and no other character |
| Sort.SortPermutes | cJSON/cJSON_Utils.c:476-585 | sorting keeps every element as often as it was there |
| Sort.SortOrdered | cJSON/cJSON_Utils.c:476-585 | the sorted list is in ascending key order, for every pair of positions |
| Sort.SortKeepsNodes | cJSON/cJSON_Utils.c:476-585 | the nodes of a sorted list are those it was made of, each once |
| Sort.Split | cJSON/cJSON_Utils.c:501-519 | the slow and fast pointers stop in the middle; the list is cut into two well-linked halves there, the first NUL-terminated |
| Sort.MergeLists | cJSON/cJSON_Utils.c:524-584 | relinking two well-linked separate lists yields the head of their ordered merge, with `next` and `prev` of every node right and the end terminated |
| Sort.Sort | cJSON/cJSON_Utils.c:476-585 | on every well-linked heap list: terminates; the result is the first node of the ordered permutation, and all nodes are linked that way: `next` to the successor or null, `prev` of each node but the first to its predecessor; the first node keeps its `prev` when it was the first before and has NULL there otherwise |
| Sort.OrderSorts | cJSON/cJSON_Utils.c:476-585 | sorting looks at the keys alone: the places the keys come from, each once, are where the elements of any list with these keys go |
| Json.Find | cJSON/cJSON.c:1788-1818 | the member found has the key and none before it has; none is found only if no member has it |
| Json.NormRemove | cJSON/cJSON_Utils.c:422-473 | on the sequence of members: taking one out of an object with distinct keys removes exactly its key from the map the object stands for; when the linked list really loses just that member is the row of `ChildList.Children.DetachItem` |
| Json.NormAppend | cJSON/cJSON.c:1864-1904 | on the sequence of members: appending one under a new key adds exactly that key to the map; when the linked list really grows by it is the row of `ChildList.Children.AddItem` |
| Json.NormUpdate | cJSON/cJSON.c:2202-2242 | replacing a member under the same key changes exactly that key in the map |
| Json.SortMembersNorm | cJSON/cJSON_Utils.c:587-594 | sorting an object leaves it the same map, with keys distinct and now in strict order |
| JsonEquality.CompareTrees | cJSON/cJSON_Utils.c:596-682 | the loops over both child lists decide the recursive test that `CompareJsonDecides` is about, and leave both trees sorted in place as far as they have been walked |
| JsonEquality.CompareJsonDecides | cJSON/cJSON_Utils.c:596-682 | on trees with distinct keys the sort-then-walk test is true exactly when both stand for the same value: objects as maps, arrays in order |
| JsonEquality.LeftKeeps | cJSON/cJSON_Utils.c:596-682 | what the test leaves of a tree, sorted in either case mode, stands for the same value in the other one too |
| JsonEquality.CompareSymmetric | cJSON/cJSON_Utils.c:596-682 | on all trees, repeated keys included, the test gives the same with its arguments in the other order |
| JsonEquality.CJsonCompareDecides | cJSON/cJSON.c:2865-2988 | the same of the test that looks up every member of each object in the other |
| JsonEquality.FastAgreesWithSimple | cJSON/cJSON_Utils.c:596-682 | the sorted walk and the two-way lookup of `cJSON_Compare` always agree, in both case modes |
| JsonEquality.CompareIsEquivalence | cJSON/cJSON_Utils.c:596-682 | both tests are reflexive, symmetric and transitive on trees with distinct keys |
| JsonEquality.RepeatedKeyParts | cJSON/cJSON.c:2949-2983 | distinct keys are needed: for every key, an object with it twice and one with it once are equal to `cJSON_Compare` and unequal to `compare_json` |
| JsonEquality.RawAndInvalidPart | cJSON/cJSON_Utils.c:596-682 | the node types outside RFC 8259 are where the tests part: two Invalid nodes, two different Raw nodes |
| ChildList.Children.FindLast | cJSON/cJSON.c:1893-1901 | the walk by `next` ends at the last child |
| ChildList.Children.AddItem | cJSON/cJSON.c:1864-1904 | on a well-linked child list with whatever `prev` of its first child is: the new child is the last of the list exactly when the list is empty, nothing is cached, or the last child is; with another child of the list cached the children behind that one are lost, and with a child cached that is gone the new one is |
| ChildList.Children.DetachItem | cJSON/cJSON_Utils.c:389-420 | the child at an index is returned, and what is left is the well-linked list without it exactly when it is not the first, or no child behind it is cached; otherwise the children from the second to the cached one form a ring, which the list leads into |
| ChildList.Children.Unlink | cJSON/cJSON.c:2103-2131 | what the assignments leave in the pointers of every node, for every position of the child and whatever is cached |
| ChildList.Children.InsertItem | cJSON/cJSON_Utils.c:685-720 | refused exactly above the end of the list; before a child the list grows there, a cached child moves up with its place, and a child that is cached and was taken out before is cached in its new place; at the end it is `AddItem` |
| ChildList.Children.SortChildren | cJSON/cJSON_Utils.c:587-594 | the list is the ordered permutation; the child that was cached is so in its new place when the first child stays first, and nothing is otherwise |
| ChildList.RingNeverEnds | cJSON/cJSON.c:1788-1818 | in a ring there is a next node after any number of steps, so a search for a key it does not hold never ends |
| Touches.DamageIsHeadHit | cJSON/cJSON.c:2103-2131 | changes to a list that caches nothing, one for each key, break it exactly when some change takes out a child that is first by then, behind a change that appended |
| LinkedJson.DuplicateIsFresh | cJSON/cJSON.c:2589-2666 | a duplicate is the same value, linked as the parser links it, with nothing cached anywhere |
| LinkedJson.DuplicateIsEqual | cJSON/cJSON.c:2589-2666 | both equality tests find a duplicate equal to what was copied |
| LinkedJson.LeftTreeErased | cJSON/cJSON_Utils.c:596-682 | what `compare_json` leaves of a tree in memory, caches included, is what it leaves of the value |
| JsonPointer.ComparePointersPlain | cJSON/cJSON_Utils.c:117-151 | for a key without `~` and `/` a path token names it exactly when the keys are equal in the case mode |
| JsonPointer.EncodedKeyMatches | cJSON/cJSON_Utils.c:170-192 | a key encoded into a path is found again exactly when it has no `~` (written as `~1`) and, unless the byte left unwritten happens to be a `~`, no `/` |
| JsonPointer.NumberOfDecimal | cJSON/cJSON_Utils.c:270-295 | decimal digits read back as the number they were printed from, without a leading zero |
| JsonPointer.DecodeDecimal | cJSON/cJSON_Utils.c:270-295 | an index printed into a path is read back as that index |
| JsonPointer.DecodePlain | cJSON/cJSON_Utils.c:355-386 | decoding leaves a token without `~` as it is |
| JsonPointer.StepPlain | cJSON/cJSON_Utils.c:297-342 | a path `/key/rest` leads to the child the key names and goes on with `rest` there, for reading and for writing alike |
| PointerEscapes.EscapedMatches | cJSON/cJSON_Utils.c:117-151 | a key with `~` as `~0` and `/` as `~1`, as RFC 6901 section 3 has it, names exactly the members with that key, for every key |
| PointerEscapes.DecodeEscaped | cJSON/cJSON_Utils.c:355-386 | what `decode_pointer_inplace` makes of such a key, character by character: `~` is put where it belongs, `/` one place too far, nothing else is moved |
| PointerEscapes.NameReadRight | cJSON/cJSON_Utils.c:355-386 | so the name of a child to add or take out is read right exactly when its key has no `/` and every other character but `~` stands where it would without escapes |
| JsonPatch.PatchArray.Compose | cJSON/cJSON_Utils.c:1086-1124 | one more patch stands behind the others, unchanged; in it a reader, in either case mode, finds the operation, the path joined with the encoded suffix, the value exactly if one was given, and no `from` |
| JsonPatch.PatchArray.CreateRemoves | cJSON/cJSON_Utils.c:1182-1195 | leftover elements of `from` become removes, all at one index |
| JsonPatch.PatchArray.CreateAdds | cJSON/cJSON_Utils.c:1196-1200 | leftover elements of `to` become adds at `-` |
| JsonPatch.PatchArray.CreateItems | cJSON/cJSON_Utils.c:1160-1203 | the three array loops append the patches of the elements both have, then the removes or the adds |
| JsonPatch.PatchArray.CreateMembers | cJSON/cJSON_Utils.c:1205-1264 | the walk over both sorted member lists appends the patches of shared keys, removes and adds in key order |
| JsonPatch.PatchArray.Create | cJSON/cJSON_Utils.c:1131-1269 | what is appended is the whole patch list the transformation law below is about |
| JsonPatch.ComposeConcat | cJSON/cJSON_Utils.c:1086-1124 | patch lists concatenate as their operations do |
| JsonPatch.TestKeepsValue | cJSON/cJSON_Utils.c:823-828 | a test sorts the item it compares but keeps the value of the document, and succeeds exactly when the item is there and equal to the value given |
| JsonPatchMeaning.IndexRead | cJSON/cJSON_Utils.c:270-295 | for every path element without `~` and `/`: which array index it names, leading zeros, the empty element and characters behind `9` included |
| JsonPatchMeaning.LookIs | cJSON/cJSON_Utils.c:297-342 | following the text of a path through a tree leads to what is at the path in its value |
| JsonPatchMeaning.AddIs | cJSON/cJSON_Utils.c:951-1015 | adding at any plain path of any well-formed document gives the value with the member set or the element inserted there and nothing else changed, or 9, 10 or 11 with no change |
| JsonPatchMeaning.DetachIs | cJSON/cJSON_Utils.c:422-473 | taking out at any plain path gives the child picked, whose value is that of the part of the document, and the value without it |
| JsonPatchMeaning.PatchMeans | cJSON/cJSON_Utils.c:799-1026 | every patch object of the six operations, on any well-formed document and plain paths, the empty one included, in both case modes: the status, and the value of the document afterwards, are those of RFC 6902 section 4 on values, all failures included |
| JsonPatchLaws.MalformedRefused | cJSON/cJSON_Utils.c:799-906 | a patch without a string `path` gives 2, without one of the six operations 3, a copy or move without `from` 4 and with one that is no string 5; the document is left as it was |
| JsonPatchLaws.FailureStops | cJSON/cJSON_Utils.c:1028-1056 | a patch list is carried out up to the first operation that fails, whose status and document are the outcome |
| JsonPatchLaws.CopyLaw | cJSON/cJSON_Utils.c:898-1015 | after a copy with status 0 the value that was at `from` is at `path`, the member set or the elements from its index on moved up by one, and every path that parts from that one leads to what it did; otherwise the value is as it was, the status being 5 without an item at `from` and 9, 10 or 11 when it cannot be put at `path` |
| JsonPatchLaws.PutIsThere | cJSON/cJSON_Utils.c:951-1015 | what has been put somewhere is at the path, for `-` at the index that was the length |
| JsonPatchLaws.NeighboursStay | cJSON/cJSON_Utils.c:951-1015 | the other members of the object are under their keys with what they held, the elements of the array at their index, or one more from the place on: so the item at `from` is still there |
| JsonPatchLaws.MoveLaw | cJSON/cJSON_Utils.c:908-1015 | a move takes the part away at `from`, all that is not on that path staying, and puts its value at `path` of what is left as a copy would; without an item at `from` the status is 5; when it cannot be put the status is 9, 10 or 11 and the item is lost |
| JsonPatchLaws.MovedIsGone | cJSON/cJSON_Utils.c:908-1015 | what was moved from a key is gone there, for every `path` that leads elsewhere or to another key of the same object |
| JsonPatchLaws.MoveWithin | cJSON/cJSON_Utils.c:908-1015 | an element moved inside its array goes to the index and the others keep their order; moved behind the end it is lost, with status 10 |
| JsonPatchLaws.MoveMember | cJSON/cJSON_Utils.c:908-1015 | a member moved to another key of its object: the map without the one key and with the value under the other |
| JsonPatchLaws.RemoveLaw | cJSON/cJSON_Utils.c:881-896 | a removal takes the part away, all that is not on the path staying; without one the status is 13 and the value as it was |
| JsonPatchLaws.TakesNamed | cJSON/cJSON_Utils.c:422-473 | which part is taken: the member with that key when no other key differs from it in case only, always so when case is ignored; of an array the element at the index |
| JsonPatchPaths.DiffUnder | cJSON/cJSON_Utils.c:1131-1269 | patches made below a path are those made at the root with the path put in front |
| JsonPatchPaths.ApplyBelow | cJSON/cJSON_Utils.c:799-1026 | on values: an operation whose path goes through a child changes that child as it would on its own, and nothing else |
| JsonPatchRoundTrip.DiffItemsApplies | cJSON/cJSON_Utils.c:1160-1203 | on values: the patches of an array make every element and the length those of the target when nothing below that is taken out has a twin (a key that differs in case only) in front of it, and, when of twins at most one is taken out, only then |
| JsonPatchRoundTrip.DiffMembersApplies | cJSON/cJSON_Utils.c:1205-1264 | on values: from any point of the walk the patches left make the object the target map under the same condition, here and below |
| JsonPatchRoundTrip.DiffTransforms | cJSON/cJSON_Utils.c:1131-1269 | on values: the operations made from two values transform every document equal to the first, whatever its member order, into the second under that condition, which is necessary too when of twins at most one is taken out |
| JsonPatchRoundTrip.PatchesReachTarget | cJSON/cJSON_Utils.c:1028-1084 | the law of RFC 6902 for values whose children are sequences: with keys free of `~` and `/`, applying the generated list to any document equal to `from` gives status 0 and a value equal to `to` if no member that is removed or replaced has a twin in front of it in the document; with at most one of twins taken out exactly then (without that, `BothTwinsReach`) |
| JsonPatchRoundTrip.NoTwins | cJSON/cJSON_Utils.c:422-473 | a document whose objects have no keys that differ in case only meets that condition |
| JsonPatchRoundTrip.CaseTwinsMissTarget | cJSON/cJSON_Utils.c:422-473 | distinct keys alone are not enough: for every two keys that differ in case only, removing the second deletes the first, with status 0 |
| JsonPatchRoundTrip.BothTwinsReach | cJSON/cJSON_Utils.c:422-473 | where both of two such keys are removed each is deleted in the place of the other, and the target is reached: the condition is not necessary there |
| LinkedPatch.Document.Apply | cJSON/cJSON_Utils.c:1028-1084 | applying a patch list in place to a tree with whatever its lists cache: it goes on to the first operation that damages a list or fails, and status and tree, children that have been lost included, are those of the operations in order; what is not an array is refused with 1 and changes nothing |
| LinkedPatch.ApplyErased | cJSON/cJSON_Utils.c:799-1026 | every operation (add, remove, replace, move, copy, test, with all errors) on a tree in memory that damages no list and loses no child has the status of the operation on values and leaves the value that leaves; a test sorts, and a move inside one array may bring a cached child back |
| LinkedPatch.ApplyAllErased | cJSON/cJSON_Utils.c:1028-1084 | the same of a list of operations |
| LinkedPatchMeaning.TreeMeans | cJSON/cJSON_Utils.c:799-1026 | an operation on a tree in memory that damages no list and loses no child has the status, and leaves the value, the request means by RFC 6902 |
| LinkedPatchMeaning.BareUnharmed | cJSON/cJSON_Utils.c:799-1026 | no single operation, whatever it is, harms a tree whose lists cache nothing |
| LinkedPatchMeaning.ParsedMeans | cJSON/cJSON_Utils.c:799-1026 | so one operation on a parsed document is carried out as it is meant |
| LinkedPatchMeaning.CopyIsAdd | cJSON/cJSON_Utils.c:898-1015 | whatever the lists cache: a copy has the outcome, harm and caches included, of adding the value that is at `from` |
| LinkedPatchMeaning.MoveIsRemoveThenAdd | cJSON/cJSON_Utils.c:908-1015 | a move has the harm, status and value of a removal followed by an addition of the value removed, unless the element goes back to an array that still caches it |
| LinkedPatchPaths.OpsBelow | cJSON/cJSON_Utils.c:799-1026 | adds, removes and replaces, which is what `create_patches` writes, whose paths go through a child do to that child what they would on their own, damage and loss included |
| LinkedTidy.TidyOps | cJSON/cJSON_Utils.c:1028-1084 | adds, removes and replaces on a tree whose lists cache nothing, the last child or one that is gone, as the parser makes them, lose no child and leave such a tree |
| LinkedCreate.CreatedKeeps | cJSON/cJSON_Utils.c:1131-1269 | `create_patches` sorts the trees it reads, and keeps their values |
| LinkedLoss.WalkEnds | cJSON/cJSON_Utils.c:1205-1264 | from any point of the walk over any object: what is left at the end has no more members than there ought to be, and a member that is missing or wrong and not spoken of again stays so |
| LinkedLoss.LossMisses | cJSON/cJSON_Utils.c:1028-1084 | children that are lost are not made up for: for every tree equal to `from`, whatever its lists cache, with twins or without, generated patches that lose a child never leave a value equal to `to` |
| LinkedPatchLaw.WalkLinked | cJSON/cJSON_Utils.c:1205-1264 | from any point of the walk over an object, and whatever its list caches: the patches left leave every list whole exactly when the changes to this list do and so do the patches below every member that stays |
| LinkedPatchLaw.ItemsLinked | cJSON/cJSON_Utils.c:1160-1203 | the same of an array, in closed form by what is cached: nothing; the first child or one that is gone; or one whose place, and that of the elements that are replaced, decides (`ArrayStays`) |
| LinkedPatchLaw.DiffLinked | cJSON/cJSON_Utils.c:1131-1269 | the same of any tree |
| LinkedPatchLaw.PatchesReachTargetInMemory | cJSON/cJSON_Utils.c:1028-1084 | the law for the lists the code has: for every tree equal to `from`, whatever its lists cache, a child in the middle included, and under the condition on twins, the generated patches leave a value equal to `to` with status 0 exactly when no list is harmed, and then all lists are whole; with at most one of twins taken out they never lead there without that condition |
| LinkedPatchLaw.SourceReachesTarget | cJSON/cJSON_Utils.c:1271-1299 | the same when the document is `from` itself, which has been sorted by then |
| LinkedPatchLaw.ParsedUnharmed | cJSON/cJSON.c:1543-1601 | what harms a parsed or duplicated object: exactly that a member is removed or replaced which is first in the list by then, behind a change that appended; an array is never harmed itself |
| LinkedPatchLaw.ParsedReachTarget | cJSON/cJSON_Utils.c:1028-1084 | the law for a parsed document: a list that is harmed is damaged, no child is lost |
| LinkedPatchCases.RenameDamages | cJSON/cJSON_Utils.c:1205-1264 | renaming the only member of a parsed object damages its list exactly when the new name comes first in key order |
| LinkedPatchCases.AddingInFrontDamages | cJSON/cJSON_Utils.c:1205-1264 | so do patches that give the only member a new value and add one that comes in front of it in key order |
| LinkedPatchCases.ReplacingBothDamages | cJSON/cJSON_Utils.c:1205-1264 | patches that give both members of a parsed object new values always damage its list |
| LinkedPatchCases.TestThenAddLoses | cJSON/cJSON_Utils.c:823-828 | adding a member to a parsed object, testing the object and adding another member gives status 0 and loses the last member in key order, for every four keys in order |
| LinkedPatchCases.SortedSourceLoses | cJSON/cJSON_Utils.c:1205-1264 | patches made from an object whose last member was added out of order, and applied to it, give status 0 and lose a member |
| LinkedPatchCases.MoveKeepsCache | cJSON/cJSON_Utils.c:685-720 | in an array of four whose last element is cached, moving that element to index 1, removing the two behind it and appending leaves the three elements it should |
| LinkedPatchLaw.CreatePatches | cJSON/cJSON_Utils.c:1271-1299 | the patches of the two values as they were, and both trees as the walk leaves them |
| LinkedPatchLaw.Synchronize | cJSON/cJSON_Utils.c:1271-1299 | making the patches, which sorts both trees, and applying them to a document in memory, another one or the very tree they were made from, has the outcome of the law |
| JsonMergePatch.MergeIdempotent | cJSON/cJSON_Utils.c:1311-1368 | on values: merging the same patch a second time changes nothing |
| MergePaths.MergeSays | cJSON/cJSON_Utils.c:1311-1368 | after a merge every path of member names holds what the patch says of it: nothing under a null, the value given, an object; and what it held before where the patch is silent |
| JsonMergePatch.MergePatchRefines | cJSON/cJSON_Utils.c:1311-1368 | on values: `merge_patch` computes the MergePatch function of RFC 7396 section 2 and keeps keys distinct |
| JsonMergePatch.MergePatchIdempotent | cJSON/cJSON_Utils.c:1311-1368 | on values: applying a merge patch twice is applying it once |
| JsonMergePatch.GenerateLoop | cJSON/cJSON_Utils.c:1380-1456 | the walk over both sorted member lists computes the merge patch `GenerateRefines` is about; below a member that differs it goes on with the two trees as the test for equality has left them, sorted in the outer mode |
| JsonMergePatch.MergeWhole | cJSON/cJSON_Utils.c:1319-1366 | a target merged into nothing arrives whole exactly when it holds no null member |
| GeneratedMergePatch.WalkLeads | cJSON/cJSON_Utils.c:1397-1447 | from any point of the walk over the members sorted in mode `g` and walked by `strcmp`: the patch left makes the object the target exactly when no member that is added is deleted again behind it or holds a null, and members that are met are told apart rightly or lead there themselves |
| GeneratedMergePatch.GeneratedPatchWorks | cJSON/cJSON_Utils.c:1380-1456 | for all well-formed trees in every combination of case modes, keys below the top that differ in case only included, and every document equal to `from`: merging what was generated makes it equal to `to` exactly when the walk leads there (on values) |
| GeneratedMergePatch.GenerateRefines | cJSON/cJSON_Utils.c:1380-1456 | where keys in both objects are met together, NULL is returned exactly for two equal objects, and otherwise the patch is the value-level difference |
| GeneratedMergePatch.AgreedPatchWorks | cJSON/cJSON_Utils.c:1380-1456 | there the patch leads to `to` exactly when every null-valued member of `to` was in `from` already |
| GeneratedMergePatch.OrdersAgree | cJSON/cJSON_Utils.c:1408-1408 | they are met together when the order of the sort and that of `strcmp` agree on the keys of the two objects and equal keys are spelled alike |
| GeneratedMergePatch.FlatAgrees | cJSON/cJSON_Utils.c:1397-1447 | so they are in case-sensitive objects no common member of which is an object in both, whatever their keys |
| GeneratedMergePatch.LowerAgrees | cJSON/cJSON_Utils.c:1397-1447 | and in all trees without upper-case letters in their keys, in both modes |
| GeneratedMergePatch.UpperCaseKeyLost | cJSON/cJSON_Utils.c:1408-1408 | an upper-case key breaks it: the walk by `strcmp` after the sort by `tolower` writes a patch that deletes the key it should keep |
| GeneratedMergePatch.NestedTwinLost | cJSON/cJSON_Utils.c:1436-1440 | two keys below the top that differ in case only break it too: the test sorts them one way, the nested walk the other, and the patch deletes the one it should keep |
| LinkedMerge.MergePatchLoop | cJSON/cJSON_Utils.c:1311-1368 | the loop over the patch members does to the lists of a target in memory, caches included, what the rows below are about, and leaves what is left when children have been lost |
| LinkedMerge.MergeErased | cJSON/cJSON_Utils.c:1311-1368 | a merge in memory that leaves every list whole leaves the value the merge of values leaves |
| LinkedMerge.MergeDamage | cJSON/cJSON_Utils.c:1311-1368 | whatever the lists of the target cache and whatever the patch, which may name a key twice: every list is left whole exactly when the changes the patch members make leave this one whole, and so do those below each member that is set, to what the object has there by then |
| LinkedMerge.ParsedMergeable | cJSON/cJSON_Utils.c:1311-1368 | in closed form for a parsed object: exactly when a member that the patch names, with a null or without, is first in the list by then, behind a member that was set |
| LinkedMerge.MergeInMemory | cJSON/cJSON_Utils.c:1311-1368 | the function of RFC 7396 is computed exactly when the target is mergeable, with every list whole; otherwise a list is damaged or children are lost |
| LinkedMerge.MergeTwiceInMemory | cJSON/cJSON_Utils.c:1311-1368 | merging the same patch again leaves every list whole, and changes nothing, exactly when at every level it sets nothing, or one member of an object that has no other, or several of an object that has others |
| LinkedMerge.GeneratedPatchInMemory | cJSON/cJSON_Utils.c:1380-1456 | the law of generated patches for the lists the code has, whatever they cache: every list is left whole exactly when the target is mergeable, also by patches that name a key twice, and then the patch leads to `to` exactly when the walk does |
| LinkedMerge.AgreedPatchInMemory | cJSON/cJSON_Utils.c:1380-1456 | where the orders agree: exactly when every null of `to` was in `from` and the patch is mergeable |
| LinkedMerge.SourceMergedInMemory | cJSON/cJSON_Utils.c:1380-1456 | the same when the patch is merged into the tree it was made from, which has been sorted by then |
| LinkedMerge.TidyMerge | cJSON/cJSON_Utils.c:1311-1368 | merging into a parsed tree loses no child |
| LinkedMerge.MergeRenameDamages | cJSON/cJSON_Utils.c:1334-1345 | the patch that renames the only member of a parsed object damages its list exactly when the new name comes first |
| LinkedMerge.SettingBothDamages | cJSON/cJSON_Utils.c:1346-1363 | a patch that sets both members of a parsed object always damages its list |
| LinkedMerge.LossByChance | cJSON/cJSON_Utils.c:1311-1368 | a merge that loses a child may still leave the right value: when the patch goes on to delete what has been lost |
| JsonStrings.Utf8IsEncoding | cJSON/cJSON.c:651-706 | the 1 to 4 bytes written for a code point decode, by RFC 3629 section 3, to that code point |
| JsonStrings.HexReads | cJSON/cJSON.c:556-589 | for every number below 65536, four characters from `0123456789ABCDEF` or `0123456789abcdef` at its hexadecimal digits, each in either case, are read as that number |
| JsonStrings.NoHexReads | cJSON/cJSON.c:556-589 | with any other character among them 0 is read |
| JsonLiterals.LiteralMeans | cJSON/cJSON.c:714-840 | every string literal of RFC 8259 section 7, made of plain characters, the eight short escapes (`\/` too) and escapes or surrogate pairs with digits in either case, is read as what its pieces mean |
| JsonLiterals.RefusedEscape | cJSON/cJSON.c:782-823 | a backslash with any other letter is refused |
| JsonLiterals.HalfPairRefused | cJSON/cJSON.c:593-649 | half a surrogate pair is refused: a second half alone, or a first one that no second one follows |
| JsonLiterals.EscapedIsPiece | cJSON/cJSON.c:843-962 | every byte is printed as a piece that means it, in visible characters, and escaped only if it must be |
| JsonLiterals.EncodedExamples | cJSON/cJSON.c:651-706 | the examples of RFC 3629 section 7 |
| JsonLiterals.EscapedExamples | cJSON/cJSON.c:593-711 | the surrogate pair of RFC 8259 section 7, an escape in digits of either case, and the escaped slash |
| JsonStrings.EscapeDecodes | cJSON/cJSON.c:593-711 | a `\u` escape or surrogate pair of RFC 8259 section 7 is read as its code point, using 6 or 12 characters |
| JsonStrings.Catch | cJSON/cJSON.c:727-753 | wherever the second pass goes next, the first has looked there or one further, and skipped at most every other character between |
| JsonStrings.EstimateSuffices | cJSON/cJSON.c:714-840 | for every literal, malformed or not, the second pass writes no more than the first has had allocated |
| JsonStrings.PassesDiffer | cJSON/cJSON.c:714-840 | the two passes can disagree: a literal whose second pass takes an escape across the quote the first one saw |
| JsonStrings.UnescapeEscaped | cJSON/cJSON.c:843-962 | decoding undoes escaping for every string without NUL, whatever follows |
| JsonStrings.ParseQuoted | cJSON/cJSON.c:714-840 | a printed string is parsed as that string, and parsing stops behind its quote |
| JsonText.ParseValue | cJSON/cJSON.c:1228-1280 | terminates on every NUL-terminated input; a success ends further on and inside the text, a failure reports a place at or behind the start |
| JsonText.ParseItems | cJSON/cJSON.c:1389-1429 | the same of the loop over array elements, despite its steps back |
| JsonText.ParseMembers | cJSON/cJSON.c:1543-1601 | the same of the loop over object members |
| JsonText.StrtodInteger | cJSON/cJSON.c:276-345 | a printed integer is read back as that number, all of its characters |
| JsonText.ParseNumberText | cJSON/cJSON.c:276-345 | the same for a number standing anywhere in a text, when no number character follows |
| JsonText.ParseText | cJSON/cJSON.c:1228-1280 | the printed text of any tree, standing anywhere, parses to the tree and stops behind the text exactly if the nesting limit is kept |
| JsonText.RoundTrip | cJSON/cJSON.c:1016-1094 | parsing the formatted or unformatted text of a tree gives the tree and uses the whole text exactly if arrays and objects nest at most 1000 deep; deeper ones always fail |
| JsonLayout.OnlyBlanksDiffer | cJSON/cJSON.c:1283-1355 | formatted or not, the text of a tree without the blanks outside its strings is its unformatted text, which so has none |
| JsonLayout.FormattedIsLaidOut | cJSON/cJSON.c:1622-1733 | the formatted text is the unformatted one laid out character by character: each member on a line of its own, indented by the brackets open, a tab behind colons, a space behind the commas of arrays |
| JsonGrammar.ReadsSource | cJSON/cJSON.c:1228-1280 | a text of the grammar of RFC 8259, with any escapes and any blanks between its tokens, standing anywhere, is parsed to the tree it stands for, exactly if the nesting limit is kept |
| JsonGrammar.GrammarIsParsed | cJSON/cJSON.c:1016-1094 | every such text, with blanks or a byte order mark in front and blanks behind, is parsed to its tree exactly if arrays and objects nest at most 1000 deep, in both modes |
| JsonPrinter.PrintBuffer.Ensure | cJSON/cJSON.c:383-468 | room is made exactly when the request stays within the limit (the buffer given, or INT_MAX); what was printed before `offset` survives a move, by `realloc` or by copying `offset` + 1 characters, for which an empty buffer is too short; a preallocated buffer is never exchanged |
| JsonPrinter.PrintBuffer.UpdateOffset | cJSON/cJSON.c:471-481 | `offset` goes to the NUL that ends what has been printed |
| JsonPrinter.PrintBuffer.PrintNumber | cJSON/cJSON.c:490-553 | the decimal digits of an integer below 10^15 stand behind what was printed, with a NUL, exactly when they fit; from 10^15 on the code prints an exponent, which is not modelled |
| JsonPrinter.PrintBuffer.PrintString | cJSON/cJSON.c:843-962 | the escaped, quoted string stands behind what was printed, with a NUL, exactly when it and one more character fit |
| JsonPrinter.PrintBuffer.PrintValue | cJSON/cJSON.c:1283-1355 | succeeds exactly when the tree can be printed and its text fits; then the buffer shows the old text and the serializer's text, whatever growth `ensure` chose |
| JsonPrinter.PrintBuffer.PrintItems | cJSON/cJSON.c:1474-1498 | the loop appends the elements' text, moving `offset` by `strlen` after each |
| JsonPrinter.PrintBuffer.PrintArray | cJSON/cJSON.c:1451-1511 | the same of an array; the nesting depth is restored |
| JsonPrinter.PrintBuffer.PrintMembers | cJSON/cJSON.c:1649-1713 | the loop appends the members' text, indented by the depth |
| JsonPrinter.PrintBuffer.PrintObject | cJSON/cJSON.c:1622-1733 | the same of an object |
| JsonPrinter.TextNulFree | cJSON/cJSON.c:1283-1355 | the text of a tree whose strings have no NUL has none, so `strlen` finds its end |
| JsonPrinter.PrintPreallocated | cJSON/cJSON.c:1208-1225 | succeeds exactly when the buffer has two characters more than the text (cJSON.h asks for five) |
| JsonPrinter.PrintBuffered | cJSON/cJSON.c:1178-1206 | every positive prebuffer, and 0 where there is a `realloc`, leads to the same text; a negative one fails; 0 without a `realloc` is not allowed, the code reads a character of the empty block |
| JsonPrinter.Print | cJSON/cJSON.c:1103-1176 | the result is the serializer's text and a NUL, no longer than that |
| JsonParser.ParseHex4 | cJSON/cJSON.c:556-589 | the loop reads four hexadecimal digits, or 0 for anything else |
| JsonParser.EncodeUtf8 | cJSON/cJSON.c:651-706 | writing the bytes back to front with the marks or-ed in gives the UTF-8 form, behind what was there |
| JsonParser.Utf16ToUtf8 | cJSON/cJSON.c:593-711 | the characters used and the bytes written are those of the code point; 0 when the escape is not well formed |
| JsonParser.Measure | cJSON/cJSON.c:727-752 | the closing quote and the number of escapes skipped |
| JsonParser.DecodeOne | cJSON/cJSON.c:762-815 | one round writes inside the array of the estimated size, keeps step with the first pass, and decodes what the specification says |
| JsonParser.DecodeLiteral | cJSON/cJSON.c:714-840 | the array of the estimated size is enough, and holds the decoded string |
| JsonParser.ParseBuffer.SkipWhitespace | cJSON/cJSON.c:979-997 | the cursor stops at the next character above a blank, never at the end of the content |
| JsonParser.ParseBuffer.ParseString | cJSON/cJSON.c:714-840 | the cursor form parses the string the functional form does |
| JsonParser.ParseBuffer.ParseNumber | cJSON/cJSON.c:276-345 | the same of a number |
| JsonParser.ParseBuffer.ParseValue | cJSON/cJSON.c:1228-1280 | the cursor-and-depth recursion returns what the functional parser does; on success the cursor is where that stops and the depth is restored |
| JsonParser.ParseBuffer.ParseArray | cJSON/cJSON.c:1357-1448 | the same of an array; deeper than 1000 fails before anything is read |
| JsonParser.ParseBuffer.ParseItems | cJSON/cJSON.c:1389-1429 | the same of the loop that starts one step back |
| JsonParser.ParseBuffer.ParseObject | cJSON/cJSON.c:1513-1619 | the same of an object |
| JsonParser.ParseBuffer.ParseMembers | cJSON/cJSON.c:1543-1601 | the same of the loop over its members |
| JsonParser.ParseWithOpts | cJSON/cJSON.c:1016-1094 | the tree and the end of the parse, or the place of the error, in both modes |
| Tftp.Server.ProcessWrite | tftp_server/src/tftp_server.cpp:82-134 | the receive loop, on any datagrams of at least 4 bytes, longer than the buffer included: result, bytes written and packets sent are those of the receiver automaton on what fits the buffer |
| Tftp.Server.WaitForAck | tftp_server/src/tftp_server.cpp:209-231 | 0 exactly for the acknowledgement awaited; a missing or foreign answer overwrites `m_buffer` with an ERROR packet and sends it |
| Tftp.Server.LoadBlock | tftp_server/src/tftp_server.cpp:144-154 | the next block, numbered modulo 65536, is in the buffer, or an error has been sent |
| Tftp.Server.SendBlock | tftp_server/src/tftp_server.cpp:158-185 | the retry loop ends as the sender automaton does, after at most three tries |
| Tftp.Server.ProcessRead | tftp_server/src/tftp_server.cpp:136-188 | result and packets sent are those of the sender automaton, for every file and every sequence of answers and timeouts |
| TftpProtocol.NextBlockInv | tftp_server/src/tftp_server.cpp:144-154 | loading block n sends exactly the n-th slice of the file under number n mod 65536, or an error behind the end |
| TftpProtocol.DataInv | tftp_server/src/tftp_server.cpp:106-131 | a block that arrives, however late or often, leaves the bytes written a prefix of the file |
| TftpProtocol.StepInv | tftp_server/src/tftp_server.cpp:82-231 | every step of either side, on any packet ever sent or none, keeps the invariant of sender, receiver and channel |
| TftpProtocol.RunInv | tftp_server/src/tftp_server.cpp:82-231 | the invariant holds after every run over a channel that loses, repeats and reorders |
| TftpProtocol.Agreement | tftp_server/src/tftp_server.cpp:82-231 | in every run the bytes written are a block-aligned prefix of the file; a receiver that reports success has the whole file exactly when it has at most 65535 blocks; a sender that reports success then has such a receiver |
| TftpProtocol.Finish | tftp_server/src/tftp_server.cpp:82-231 | from every state in which nothing is lost a run leads to success at both ends |
| TftpProtocol.SuccessPossible | tftp_server/src/tftp_server.cpp:142-186 | some run ends in success exactly when the file length is no multiple of 512 |
| TftpProtocol.WrapLosesData | tftp_server/src/tftp_server.cpp:107-126 | for every longer file there is a run in which both ends report success and only 65535 blocks were written |
| TftpProtocol.RetransmitsBlock | tftp_server/src/tftp_server.cpp:201-231 | what a retry sends is the block again exactly when an acknowledgement came; after a timeout it is the text of the ERROR packet |
| TftpBytes.DataReceived | tftp_server/src/tftp_server.cpp:106-131 | the bytes 0 3, a number and data: acknowledged by 0 4 and the number, written unless the number has been passed, and the last if shorter than 512 |
| TftpBytes.OtherReceived | tftp_server/src/tftp_server.cpp:84-104 | a write request before the first block is answered 0 4 0 0 again; any other packet ends the transfer with 1, none at all with -1 |
| TftpBytes.FileReceived | tftp_server/src/tftp_server.cpp:82-134 | a file of fewer than 65535 blocks, every packet in order: written as it is, each block acknowledged, result 0 |
| TftpBytes.FileSent | tftp_server/src/tftp_server.cpp:136-188 | a file whose blocks are acknowledged at once: every block sent once and in order, result 0, or for a multiple of 512 an error packet and -1 |
| TftpBytes.OthersAcked | tftp_server/src/tftp_server.cpp:158-185 | three acknowledgements with other numbers: the block is sent three times, and the result is -1 |
| TftpBytes.NothingAcked | tftp_server/src/tftp_server.cpp:158-231 | no answer at all: block, error, what is left of the buffer, error, that again, error, and -1 |
| WebSocket.MaskUndoes | mongoose/mg_http_websocket.c:144-149 | masking twice with one key is the identity |
| WebSocketBytes.MaskedBits | mongoose/mg_http_websocket.c:144-149 | bit k of a masked byte is set exactly when bit k of the byte and of the key byte at its index modulo 4 differ |
| WebSocketBytes.MaskedCarries | mongoose/mg_http_websocket.c:144-149 | in these bits: what is delivered of a masked payload is what it carries |
| WebSocketBytes.CarriesOnce | mongoose/mg_http_websocket.c:144-149 | so a masked payload carries one sequence of bytes and no other |
| WebSocketBytes.LengthIs | mongoose/mg_http_websocket.c:111-128 | the length bytes of RFC 6455 section 5.2: below 126, 126 and two bytes, or 127 and eight bytes |
| WebSocketBytes.FrameBytesDelivered | mongoose/mg_http_websocket.c:60-211 | the bytes of a frame, cut anywhere: one event with its flags and the data the payload carries bit by bit; a ping (9 in the low bits of the first byte) is answered with a pong of that data, a close (8) with a close of it, and nothing else is answered |
| WebSocketBytes.FragmentsDelivered | mongoose/mg_http_websocket.c:151-179 | the bytes of a message in two fragments, cut anywhere: one event with the joined data |
| WebSocketBytes.Refused | mongoose/mg_http_websocket.c:60-110 | by the first byte: a control frame that is a fragment, and a message between the fragments of another, are complained of and stay in the buffer |
| WebSocketBytes.FrameByFrame | mongoose/mg_http_websocket.c:180-207 | without reassembly every frame is passed on as it is, fragments included, and answered by its first byte |
| WebSocketBytes.FragmentedHello | mongoose/mg_http_websocket.c:151-179 | the fragmented text of RFC 6455 section 5.7 arrives as Hello, cut anywhere |
| WebSocketBytes.PingedHello | mongoose/mg_http_websocket.c:190-199 | the unmasked ping there is answered with a pong of its data |
| WebSocket.ParseWire | mongoose/mg_http_websocket.c:111-128 | the header of every frame RFC 6455 section 5.2 allows is read back; a part of one never claims a complete frame |
| WebSocket.ReassembleFrame | mongoose/mg_http_websocket.c:151-179 | a fragment joins the message in progress; the last one delivers the whole with FIN set |
| WebSocket.DeliverFrame | mongoose/mg_http_websocket.c:60-211 | a whole legal frame at the front is consumed, delivers what it completes, answers pings and closes, and leaves the rest of the buffer |
| WebSocket.DeliverPart | mongoose/mg_http_websocket.c:60-211 | less than a frame changes nothing |
| WebSocket.DrainFrames | mongoose/mg_http_websocket.c:350-353 | the loop delivers all complete frames; delivered and outstanding messages together stay the same |
| WebSocket.FeedFrames | mongoose/mg_http_websocket.c:350-353 | from any state inside a stream, any cutting of the rest delivers exactly the rest of its messages |
| WebSocket.StreamDelivered | mongoose/mg_http_websocket.c:60-211 | for every legal frame sequence (fragmented, interleaved with control frames, masked or not) and every cutting of its bytes, exactly its messages and control frames are delivered, in order |
| WebSocketIo.MaskInPlace | mongoose/mg_http_websocket.c:284-290 | the loop masks its range of the buffer and nothing else |
| WebSocketIo.Receiver.Reassemble | mongoose/mg_http_websocket.c:151-179 | moving the payload up inside the buffer does to the connection what the specification of a fragment says |
| WebSocketIo.Receiver.Pass | mongoose/mg_http_websocket.c:180-207 | the same of a complete message, cut out from behind the message in progress |
| WebSocketIo.Receiver.DeliverData | mongoose/mg_http_websocket.c:60-211 | the in-place code, with every error branch, has the outcome of the functional form |
| WebSocketIo.Receiver.OnReceive | mongoose/mg_http_websocket.c:350-353 | the receive loop ends and has the outcome of the functional form |
| WebSocketIo.Writer.SendHeader | mongoose/mg_http_websocket.c:246-282 | the header bytes and, on a client, the key are appended; the position to mask from is right |
| WebSocketIo.Writer.SendFrame | mongoose/mg_http_websocket.c:292-304 | what is appended is a frame in the form of RFC 6455 section 5.2 with this operation and payload, masked on a client |
| WebSocketIo.MessageArrives | mongoose/mg_http_websocket.c:292-304 | a frame written by one side, cut anywhere, is delivered by the other once, with operation and payload unchanged |
| WebSocketIo.PartsArrive | mongoose/mg_http_websocket.c:292-304 | a message written in two parts, the first without FIN, and cut anywhere, is delivered by the other side once and joined |
| WebSocketIo.WritesMinimalLength | mongoose/mg_http_websocket.c:246-282 | the shortest length form is used exactly when the length is not 65535 |
| Md5.FoldJoin | mongoose/common/cs_md5.c:169-175 | compressing two runs of blocks one after the other is compressing them joined |
| Md5.CarryIsRight | mongoose/common/cs_md5.c:148-150 | the two 32-bit words with their carry add 8 times the length modulo 2^64 |
| Md5.CountsShortUpdates | mongoose/common/cs_md5.c:148-150 | the bit count is right exactly for updates below 2^32 bytes: the shift keeps 35 bits |
| Md5.Context.constructor | mongoose/common/cs_md5.c:53-61 | a new context has absorbed nothing and counted nothing |
| Md5.Context.Count | mongoose/common/cs_md5.c:146-152 | the count modulo 2^64, and the fill of the block begun |
| Md5.Context.Absorb | mongoose/common/cs_md5.c:154-178 | state and block buffer are those of the message with the new bytes behind it, for every fill and length |
| Md5.Context.Update | mongoose/common/cs_md5.c:145-178 | after any sequence of updates the state is that of the concatenated input |
| Md5.Context.Pad | mongoose/common/cs_md5.c:185-202 | one or two padding blocks complete the message as RFC 1321 section 3.1 says |
| Md5.Context.Final | mongoose/common/cs_md5.c:180-208 | the digest is the fold of the compression function over the padded input |
| Md5.CountedIsLength | mongoose/common/cs_md5.c:148-150 | for pieces below 2^32 bytes the count kept is 8 times the total length modulo 2^64 |
| Md5.HashV | mongoose/mg_http.c:1850-1859 | hashing a list of pieces is hashing their concatenation, so the cuts make no difference |
| Md5.LongMessage | mongoose/common/cs_md5.c:148-150 | one update is padded with the right length exactly when it is below 2^32 bytes |
| Md5Bytes.PaddedIs | mongoose/common/cs_md5.c:180-203 | the padded message: 0x80, fewer than 64 zeros to whole blocks, and eight bytes that say the number of bits, the lowest first |
| Md5Bytes.StartIs | mongoose/common/cs_md5.c:53-61 | the initial state is the bytes 01 23 45 67 89 ab cd ef fe dc ba 98 76 54 32 10 |
| Md5Bytes.OneBlockDigest | mongoose/common/cs_md5.c:180-208 | the digest of a message of at most 55 bytes, from the bytes of its one block |
| Uri.SideBySide | mongoose/mg_uri.c:159-191 | the code's walk, one slash ahead of the RFC's, and `remove_dot_segments` agree at every point |
| Uri.BacktrackIsRemoval | mongoose/mg_uri.c:177-179 | the backtracking write pointer removes the last segment and keeps its slash |
| Uri.NormalizedIsRfc | mongoose/mg_uri.c:159-191 | for every path with a leading slash the result is that of RFC 3986 section 5.2.4 |
| Uri.NormalizedResult | mongoose/mg_uri.c:159-191 | the result starts with a slash, has no dot segment, and is a fixed point |
| UriSegments.SegmentsNormalized | mongoose/mg_uri.c:159-191 | as lists of segments: `.` stays, `..` goes up and at the top stays, any other is entered; the result is the directory reached with the last segment, and a slash at the end where that is a dot segment |
| Uri.ParseUriComponent | mongoose/mg_uri.c:15-27 | the component ends before the first separator, or at the end; the next one starts behind that |
| Uri.BacktrackPointer | mongoose/mg_uri.c:177-179 | the pointer only moves down, to where the last segment is gone |
| Uri.NormalizeUriPath | mongoose/mg_uri.c:159-191 | also with source and destination the same array: refuses exactly paths without leading slash and leaves them, else writes the RFC's result; the write pointer never passes the read pointer |
| Dns.EncodeName | mongoose/mg_dns.c:88-115 | the labels of the name are appended, each with its length in front, and a 0; or -1 at a label above 127 bytes |
| Dns.UncompressName | mongoose/mg_dns.c:289-343 | on every packet and position: ends, reads only inside the packet, writes only inside `dst_len` bytes, returns what the recursive form says |
| Dns.UncompressedIsExpansion | mongoose/mg_dns.c:289-343 | when RFC 1035 section 4.1.4 expands the name through at most 15 pointers, the result is the start of its dotted form, as much as fits |
| Dns.DecodeLabels | mongoose/mg_dns.c:289-343 | reading labels that stand in a packet gives their name exactly when they are proper, else less than it |
| Dns.DecodeUndoesEncode | mongoose/mg_dns.c:88-115 | reading back an encoded name gives the name exactly when it is empty or its labels have 1 to 63 bytes |
| DnsBytes.NameWritten | mongoose/mg_dns.c:88-115 | labels of 1 to 127 bytes with dots between are written each with its length in front, and a zero |
| DnsBytes.LongRefused | mongoose/mg_dns.c:88-115 | a longer label is refused |
| DnsBytes.LabelsRead | mongoose/mg_dns.c:289-343 | labels of at most 63 bytes in a packet are those of the expansion |
| DnsBytes.PointerRead | mongoose/mg_dns.c:308-325 | the bytes 192 + n / 256, n % 256 lead on to offset n, fifteen times at most; behind the packet or once more there is no name |
| DnsBytes.SuffixShared | mongoose/mg_dns.c:308-325 | labels and a pointer behind them are the labels and those of the name there |
| Coap.InsertOrdered | mongoose/mg_coap.c:31-75 | adding an option keeps the list ascending and loses none |
| Coap.OptionsReadBack | mongoose/mg_coap.c:215-297 | written options are read back from anywhere in a packet, behind those already read |
| Coap.ParsedAscending | mongoose/mg_coap.c:215-297 | whatever the bytes, the options of a parsed message are ascending |
| Coap.RoundTrip | mongoose/mg_coap.c:299-329 | parsing a composed message gives back header, token, options and payload without an error flag exactly when all option numbers and lengths fit 16 bits |
| CoapBytes.MessageIs | mongoose/mg_coap.c:449-518 | the bytes of a message as RFC 7252 section 3 draws them: version 1, type, token length, code, identifier, token, options with deltas and lengths of 13, 269 and more extended by one or two bytes, 255 and the payload; they are read back when all fits 16 bits |
| CoapBytes.InsertPlace | mongoose/mg_coap.c:31-75 | an option stands behind all that are not greater and before all that are, the others keep their places |
| CoapBytes.HeaderRefused | mongoose/mg_coap.c:101-167 | which flags a message has that is too short, of another version, or has a token that is too long or missing |
| CoapBytes.OptionRefused | mongoose/mg_coap.c:215-297 | four bits of 15 are a format error, missing extension bytes are missing data |
| CoapIo.OptionList.Search | mongoose/mg_coap.c:53-63 | the place of a new option: behind all that are not greater |
| CoapIo.OptionList.Add | mongoose/mg_coap.c:31-75 | the linked list with its tail pointer holds the old options and the new one in its place; it stays well linked |
| CoapIo.OptionsSize | mongoose/mg_coap.c:424-444 | refused exactly if numbers descend or a delta or length cannot be written; otherwise the size of the bytes written later |
| CoapIo.CalculatePacketSize | mongoose/mg_coap.c:400-447 | no error exactly for messages that can be composed, and then the exact number of bytes of the message |
| CoapIo.StoreOption | mongoose/mg_coap.c:488-505 | one option is written in the form of RFC 7252 section 3.1 behind what is there, inside the buffer |
| CoapIo.StoreOptions | mongoose/mg_coap.c:485-509 | the loop writes all options, each relative to the one before |
| CoapIo.Compose | mongoose/mg_coap.c:449-518 | the buffer grows by exactly the size calculated and holds the message; on an error it is unchanged |
| CoapIo.GetExtOpt | mongoose/mg_coap.c:169-213 | the value and width of an extended field, or failure at the end of the packet |
| CoapIo.GetOptions | mongoose/mg_coap.c:215-297 | the loop with the list it builds has the outcome of the functional form; after an error the list is empty |
| CoapIo.ParseMessage | mongoose/mg_coap.c:299-329 | flags, fields and option list are those of the functional parser, for every input |
| Chunked.ChunkStays | mongoose/mg_http.c:583-618 | a complete chunk stays the same chunk when more bytes arrive |
| Chunked.CollapseLater | mongoose/mg_http.c:620-675 | decoding a part, then the rest with what comes later, is decoding all at once |
| Chunked.CutsDoNotMatter | mongoose/mg_http.c:620-675 | every cutting of a body into calls of `mg_handle_chunked` has the outcome of one call, as long as `body_len` is carried over between them, which `mg_http_handler` does not do |
| Chunked.DeletingCutsDoNotMatter | mongoose/mg_http.c:655-665 | with `body_len` 0 again on each delivery, as `mg_http_handler` has it: if the handler sets the delete flag, what it has been given and what is left are those of one delivery, for every cutting |
| Chunked.KeepingLastOnly | mongoose/mg_http.c:832-842 | without the flag cuts make no difference if no delivery before the last holds a complete chunk |
| Chunked.KeepingExactly | mongoose/mg_http.c:832-842 | if one does, and the data decoded by then does not read as a chunk again with all that follows it, they make none exactly when that delivery is the last or completes the body |
| Chunked.LastChunkLost | mongoose/mg_http.c:832-842 | a piece that starts with no hexadecimal digit in one delivery and the last chunk in the next: in one delivery they are a body, in two it is never complete |
| Chunked.DecodedTwice | mongoose/mg_http.c:832-842 | a piece that reads as a chunk is decoded a second time with the next delivery |
| Chunked.DigitsReadBack | mongoose/mg_http.c:589-598 | a size written in hexadecimal is read back, unless it has more than six digits |
| Chunked.ChunkReadBack | mongoose/mg_http.c:1676-1684 | a chunk written is read back exactly when it is shorter than 16^6 bytes |
| ChunkedBytes.DigitRead | mongoose/mg_http.c:589-598 | the hexadecimal digits are the characters of `0123456789ABCDEF` and `0123456789abcdef` with the value of their place, and no others |
| ChunkedBytes.ChunkRead | mongoose/mg_http.c:583-618 | a chunk whose size is written in one to six digits of either case gives its data, the empty one ends the body, more digits are refused |
| ChunkedBytes.PartWaits | mongoose/mg_http.c:583-618 | any strict part of a chunk is left where it is |
| ChunkedBytes.ChunkWritten | mongoose/mg_http.c:1676-1684 | what is sent of a piece is such a chunk, with its size in upper case and no leading zero |
| Chunked.SentIsReceived | mongoose/mg_http.c:620-675 | chunks sent, the last one and any rest collapse to the concatenated pieces and that rest exactly when each piece has 1 to 16^6 - 1 bytes |
| ChunkedIo.ScanNumber | mongoose/mg_http.c:589-598 | the loop reads the hexadecimal number at the front, at most six digits |
| ChunkedIo.ParseChunkAt | mongoose/mg_http.c:583-618 | the pointer form finds the chunk the functional form does, inside the buffer |
| ChunkedIo.Connection.CollapseOne | mongoose/mg_http.c:634-644 | one round moves a chunk's data up against the body; the unparsed rest is untouched |
| ChunkedIo.Connection.CollapseChunks | mongoose/mg_http.c:630-644 | overlapping moves in one buffer leave the collapsed body and the unparsed rest |
| ChunkedIo.Connection.Shift | mongoose/mg_http.c:646-652 | the rest follows the body, what is left over is cleared |
| ChunkedIo.Connection.HandleChunked | mongoose/mg_http.c:620-675 | one call does to body, rest and end-of-body what `Collapse` says, from the `body_len` it finds, also when the handler sets the delete flag |
| ChunkedIo.Connection.OnReceive | mongoose/mg_http.c:832-842 | a delivery in `mg_http_handler`: the protocol data are new, so `body_len` is 0, and the outcome is that of `Receive`, which the rows on cuts above are about |
| Mqtt.DecodeLengthLoop | mongoose/mg_mqtt.c:37-49 | the loop decodes the variable length, or asks for more, or finds it too long |
| Mqtt.ParseMqtt | mongoose/mg_mqtt.c:26-137 | on a buffer that holds the packet announced: outcome and length are those of the functional form, which reads the fields from the slice of the packet |
| Mqtt.PacketFirst | mongoose/mg_mqtt.c:26-137 | what stands behind a packet makes no difference |
| Mqtt.PrefixIncomplete | mongoose/mg_mqtt.c:26-137 | every strict prefix of a packet is reported incomplete |
| Mqtt.OnReceive | mongoose/mg_mqtt.c:151-186 | the receive loop ends and has the outcome of the functional form |
| Mqtt.DrainPackets | mongoose/mg_mqtt.c:151-186 | the loop delivers all complete packets; delivered and outstanding together stay the same |
| Mqtt.StreamDelivered | mongoose/mg_mqtt.c:151-186 | any concatenation of packets within the receive limit, cut anywhere, is delivered once each and in order, and nothing is left |
| MqttBytes.LengthIs | mongoose/mg_mqtt.c:271-289 | the remaining length in one to four bytes, seven bits each, the lowest first |
| MqttBytes.ConnAckRead | mongoose/mg_mqtt.c:94-97 | for all flags and codes: the second byte of the body of CONNACK is the return code; 20 02 00 05 is code 5, in 4 bytes |
| MqttBytes.AckRead | mongoose/mg_mqtt.c:98-106 | commands 4 to 7 and 9, with any flags: the first two bytes of the body are the identifier, for every identifier below 65536 |
| MqttBytes.ShortIsMalformed | mongoose/mg_mqtt.c:94-127 | with fewer than two bytes they are malformed, and so is a SUBSCRIBE |
| MqttBytes.SubscribeRead | mongoose/mg_mqtt.c:117-127 | SUBSCRIBE: the identifier, and the topics as they are |
| MqttBytes.OthersRead | mongoose/mg_mqtt.c:128-131 | a command that is not handled has no fields |
| MqttBytes.PublishRead | mongoose/mg_mqtt.c:107-116 | PUBLISH: a counted topic, an identifier above QoS 0, and the rest as payload |
| MqttBytes.ConnectRead | mongoose/mg_mqtt.c:52-92 | CONNECT: name, version, flags, keep-alive time, client identifier, and the strings bits 2, 7 and 6 of the flags announce |
| MqttWriters.SendHeader | mongoose/mg_mqtt.c:271-289 | the loop writes the variable length of MQTT 3.1.1 section 2.2.3 |
| MqttWriters.LengthReadBack | mongoose/mg_mqtt.c:271-289 | the length is read back as long as it has at most 5 bytes and 32 bits |
| MqttWriters.PacketOf | mongoose/mg_mqtt.c:26-137 | a header and a body of the size announced parse to the fields of the body, or are malformed when the body is |
| MqttWriters.FlagsSay | mongoose/mg_mqtt.c:296-371 | the flag byte of a handshake says which of will, user name and password are there |
| MqttWriters.ConnectReadBack | mongoose/mg_mqtt.c:296-371 | a CONNECT body parses to the fields of the handshake, every string cut to the length sent |
| MqttWriters.ConnectRoundTrip | mongoose/mg_mqtt.c:296-371 | a CONNECT packet is read back as meant exactly when all its strings have at most 65535 bytes |
| MqttWriters.SendHandshake | mongoose/mg_mqtt.c:296-371 | the sizes added up are those of what is sent: the bytes appended are the packet |
| MqttWriters.PublishRoundTrip | mongoose/mg_mqtt.c:373-396 | a PUBLISH packet is read back exactly when its topic has at most 65535 bytes |
| MqttWriters.SendPublish | mongoose/mg_mqtt.c:373-396 | the bytes appended are the packet, for every QoS |
| MqttWriters.SubscribeRoundTrip | mongoose/mg_mqtt.c:398-422 | a SUBSCRIBE packet is read back exactly when every topic fits; otherwise it announces more than it sends and stays incomplete |
| MqttWriters.SendSubscribe | mongoose/mg_mqtt.c:398-422 | the two loops append the packet |
| MqttWriters.AllTopics | mongoose/mg_mqtt.c:424-437 | iterating over a payload recovers exactly the list of topics and QoS values it was made from |
| Update.StepInv | dlc_server.c:1130-1176 | every step of every handler and thread keeps the invariant of status, running threads and record |
| Update.RunInv | dlc_server.c:1130-1176 | the invariant holds after every interleaving |
| Update.Causality | dlc_server.c:860-928 | in every run each start of a `/tdr/run` request is preceded by a finished upload, that by a `/pkg/new` reply for the WPC, that by a successful download, that by an accepted manifest |
| Update.DisplayAsked | dlc_server.c:523-533 | if every manifest until then parsed, the start was asked for by the display after the upload |
| Update.RunIsForLastManifest | dlc_server.c:1085-1091 | a `/tdr/run` request names the device of the manifest accepted last when its thread makes the payload, some time after the start: the WPC exactly when no manifest for another device has come in since the last one for the WPC; and a start precedes it |
| Update.OnePayloadEach | dlc_server.c:1098-1102 | in every run the payloads made are as many as the requests started, less those whose thread has not made its own yet |
| Update.StatusNeverAsked | dlc_server.c:1154-1157 | the package status is never asked for unless a manifest failed to parse |
| Update.UpdateRuns | dlc_server.c:1130-1176 | a run that reaches the start of an update exists |
| Update.OtherDeviceRuns | dlc_server.c:1098-1102 | a manifest for the VDCM that comes in after the request for the WPC was started, and before its thread makes the payload, makes it name the VDCM, whose package was never announced |
| UpdateRecord.RunRecorded | dlc_server.c:1130-1176 | in every run the status is the one the last event on record that decides it says; as many `/tdr/stat` threads run as the record starts and does not end; and each is started right after a connected `/tdr/run`, an answer in progress, or a bad manifest in the middle of an upgrade, and at no other time |
| UpdateRecord.EndIsAnswered | dlc_server.c:1059-1069 | in every run the status is ORCH_TDR_SUCC exactly when the last event that decides it is a positive answer of `/tdr/stat`, and ORCH_TDR_FAIL exactly for a negative one |
| UpdateRecord.AnswerDecides | dlc_server.c:1047-1071 | after any run an answer sets the status by its sign, or leaves it without a result; progress 0 starts one more `/tdr/stat` thread and no other answer does |
| UpdateRecord.RunAsks | dlc_server.c:982-986 | after any run a connected `/tdr/run` starts one more |
| UpdateServer.Server.constructor | dlc_server.c:1180-1228 | the initial status and context |
| UpdateServer.Server.CoreStateHandler | dlc_server.c:1130-1176 | the switch over `g_stat` starts the threads and sets the status the state machine says |
| UpdateServer.Server.DmcManifest | dlc_server.c:812-852 | a manifest from the DMC: the invariant is kept and the next state is that of the state machine |
| UpdateServer.Server.DownloadEnds | dlc_server.c:630-674 | the same of the end of a download |
| UpdateServer.Server.UploadEnds | dlc_server.c:860-893 | the same of the end of an upload, which makes the package ready whatever the command said |
| UpdateServer.Server.StartUpgrade | dlc_server.c:523-533 | the same of START_UPGRADE, which waits only if the package is ready |
| UpdateServer.Server.GoAhead | dlc_server.c:527-530 | the same of a waiting start, which acts even if the status has changed meanwhile |
| UpdateServer.Server.PkgNewEvent | dlc_server.c:895-928 | the same of connect, reply and close on `/pkg/new` |
| UpdateServer.Server.PkgStatEvent | dlc_server.c:930-969 | the same on `/pkg/sta` |
| UpdateServer.Server.TdrRunEvent | dlc_server.c:972-1023 | the same on `/tdr/run` |
| UpdateServer.Server.TdrStatEvent | dlc_server.c:1025-1082 | the same on `/tdr/stat`, with the progress as the number the reply gives, or none |
| UpdateServer.Server.ThreadStarts | dlc_server.c:1098-1102 | the start of a request thread: it makes the payload of the device named then, without waiting for the lock |
| UpdateServer.Server.RequestEnds | dlc_server.c:1098-1121 | the same of a request thread that leaves its loop and resets the exit flag |

## Left out

- JsonText.RoundTrip: numbers are integers with a magnitude below 10^15; a fraction or exponent is consumed as `strtod` does but the value is the integer in front, because floating point is not modelled.
- JsonPrinter.PrintBuffer.PrintNumber: the digits of a number are those of an integer; `%1.15g` (which writes `1e+15` for 10^15), `%1.17g` and the locale's decimal point are left out.
- JsonPrinter.PrintBuffered: a prebuffer of 0 without a `realloc`; an allocator that returns NULL for a size of 0 counts as one that is out of memory, which is left out.
- JsonPatchRoundTrip.PatchesReachTarget: children are sequences here, `LinkedPatchLaw` has the lists. The other direction is proved when of twins at most one is taken out; `BothTwinsReach` shows that it fails otherwise.
- JsonPatchMeaning.PatchMeans: paths are plain and start with a slash or are empty; what an escape in a path does is in `PointerEscapes`.
- JsonGrammar.GrammarIsParsed: numbers are integers below 10^15 without leading zeros; what is no text of the grammar and parsed all the same (control characters in strings, blanks below the space) is not described.
- LinkedPatchLaw.PatchesReachTargetInMemory: what the code does with a list once it is damaged (an endless loop, a write to a freed node) is not followed further. A list is damaged when its `next` chain no longer ends, or when a child that is gone is written to.
- LinkedPatch.ApplyErased: a child that a list still caches, and that goes to another list and by a later move comes back, counts as gone, so that appending then counts as damage. The value a `test` compares with is sorted too, in the patch list, which is not read again.
- LinkedPatch.Document.Apply: a `from` that is no string counts as a missing one; an array index too large for `size_t` is not modelled.
- JsonEquality.CJsonCompareDecides: the shortcut for two equal pointers is left out, it agrees with reflexivity.
- LinkedMerge.MergeInMemory: which of the merges that lose children leave the right value all the same (`LossByChance`) is not decided.
- JsonStrings.EstimateSuffices: characters are bytes; a C string is a sequence that ends at its first NUL.
- JsonParser.ParseWithOpts: building the list of children by pointers is modelled as appending to a sequence; the position of an error is not stored in a global variable.
- Tftp.Server.ProcessWrite: datagrams have at least 4 bytes (a shorter one reads what the buffer held before); a failing `sendto` is left out, as are request parsing, `on_read`, `on_write` and the socket.
- TftpProtocol.Agreement: the sender's file and the receiver's file are the only ones; datagrams of other hosts do not reach the channel.
- WebSocket.StreamDelivered: for legal frame sequences; what the code does on illegal ones is in `Receiver.DeliverData` only. A final continuation with no message open and no payload is an empty message here, in the code its length wraps around.
- WebSocketIo.Receiver.DeliverData: the answers to pings and closes are recorded, not framed with a random key; `mg_ws_close` leaves the connection open as in the code.
- WebSocketIo.Writer.SendFrame: the random key is a parameter.
- Md5.Context.Final: the compression function is a parameter, its 64 steps are not modelled; clearing the context afterwards is left out.
- Dns.UncompressName: a negative `dst_len`, and resource records around the name, are left out.
- Dns.DecodeUndoesEncode: the limit of 255 bytes of a whole name is in neither function of the code.
- CoapIo.Compose: running out of memory for the buffer is left out.
- Chunked.KeepingExactly: data that does read as a chunk again; then the outcome depends on what the data is (`DecodedTwice`).
- ChunkedIo.Connection.HandleChunked: the message length counts the body and the bytes behind the last chunk but not the headers; the handler of the chunk event is reduced to whether it sets the delete flag.
- Mqtt.ParseMqtt: the body is parsed as a slice of the buffer, so a string that runs out of the packet is malformed; `scanto` reads up to two bytes behind the packet before it finds that; fields an earlier message left in the struct are not kept.
- MqttWriters.ConnectRoundTrip: remaining lengths are below 2^28, and a user name or password is there when the flags of the caller say so.
- Update.Causality: handlers are atomic, as the comment on the lock intends; a lock that times out is left out.
- UpdateServer.Server.DmcManifest: parsing a manifest is reduced to the device it names or failure.
- Floating point, locale, allocation failure, `cJSON_Minify`, list editing by pointer, file and socket input and output, logging.
- Keep-alive, topic matching and the short commands of MQTT; CoAP retransmission; WebSocket handshake; HTTP requests, uploads, SSI, CGI and authentication beyond the hash.
- The formatters of display messages and the field checks of `bs_dlc_utils.c`: straight-line code.

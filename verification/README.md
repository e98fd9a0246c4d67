# YKP: proofs about the firmware, its libraries and the backend

This project models the parts of the YKP smart-home system in which a mistake is hardest to see, and
proves what they do for all inputs and all runs.

**The JSON engine of the firmware.** Trees are values (`JsonTree`); two trees are equal up to member
order if their values are (`Abs`). `JsonList` has the doubly linked child list itself: append, detach,
insert, replace and the in-place mergesort on heap nodes, with the head's `prev` pointing at the tail;
`JsonTails` is what that pointer finds, and what a sort does to it. `JsonSort` says what the sort and the
comparison built on it compute, `JsonFolded` the comparison without regard to case. `JsonPointer`,
`JsonMerge` and `JsonMergeGenerate` cover RFC 6901 and 7396, and `JsonMergeExact` says for every pair of
trees whether a generated merge patch leads from one to the other.

**JSON Patch (RFC 6902).** `JsonPatch` has the operations on a document whose lists are intact,
`JsonPatchLaws` says for each of them exactly when it does what the standard says, `JsonPatchRoundTrip`
`JsonPatchExact` and `JsonPatchRemovals` when generated patches lead from one tree to another. `JsonItems`
has trees as they are in memory, `JsonPatchInPlace` applies patches to them and says exactly when that is the same,
`JsonPatchCreate` generates patches from them, and `JsonPatchSorting` is what sorting in place can cost.

**JSON text (RFC 8259).** `JsonText` is printing and parsing as functions, `JsonTextRoundTrip` their round
trip, `JsonParseBuffer` and `JsonPrintBuffer` the code that computes them on its buffers.

**The YKP v5 codec, in C and in TypeScript.** `Cbor`, `Tlv`, `TlvFind` and `TlvRead` are the payload
maps, `PacketCodec` the packet around them, `Float16` the half-precision floats.

**Delivery.** `Replay` has both replay windows, `Delivery` the two ends of a session with a network that
drops, repeats and reorders, `Qos` and `QosRuns` the retry engine, `Ota` the firmware update.

**The WebSocket client.** `WsSend` is fragmentation, `WsLifecycle` the client task among other threads, `WsClient` its code.

Code that changes its state step by step is a class or a method with loops. Each method is proved
against a function of its input or of the old state, and the properties are proved about that function.
Where the code does not do what it is meant to, the model follows the code, and a lemma says exactly when
it does:

- `decode_pointer_inplace` damages most escaped keys, and detaching by path ignores case. A patch acts on
  the node it names exactly if the key that ends its path survives (`Survives`) and, where a node is taken
  out, no earlier key beside it is equal modulo case.
- `sort_object` keeps the tail pointer of a head that stays and clears that of a head that moves. Appending
  afterwards drops the new node, or cuts off the nodes behind the old tail. The "test" operation and the
  generators sort in place; `JsonPatchInPlace.RunExactly` says exactly which patch lists are not affected.
- The generator of merge patches may sort without regard to case and walks by strcmp: it can write a member
  first and a null for it afterwards. `JsonMergeExact.MergeExactly` is the exact condition on two trees,
  `OrdersDecide` the one on their keys.
- The default merge ignores case; it agrees with the standard exactly where no key of the target differs by
  case alone from one of the patch.
- `cJSON_PrintPreallocated` asks for two bytes more than the text, one of them for the NUL; its
  documentation recommends five.
- The finders return the whole encoded item. An OTA update that announces a 32-byte hash is therefore
  refused, chunk heads are written to flash, and the OTA theorems are about encoded items.
- `OTA_INSTALL` asks for no verification, and a good `OTA_COMPLETE` leaves the update active: chunks can
  still be written. `Ota.InstallBootsVerifiedExactly` says when a verified image is booted all the same.
- A repeated SESSION_ACTIVE empties the replay window; a packet is let through once for each stretch
  between two of them in which a copy arrives in time.
- `ykp_packet_serialise` computes its total in 16 bits; above 65486 payload bytes it can leave the buffer.
- The firmware halves subnormal halves, the backend reads infinity as 2^-15.
- A WebSocket loss can be reported twice, by a thread whose test for a connection is older than the loss;
  exactly where such a thread's send fails while the client is in INIT.

## Model

| member | source | states |
|---|---|---|
| JsonList.GetArrayItem | esp32-firmware/managed_components/espressif__cjson/cJSON/cJSON_Utils.c:262-272 | in a well-formed child list the node at the index is found by following `next`, and null is returned past the end |
| JsonList.AddItemToArray | esp32-firmware/managed_components/espressif__cjson/cJSON/cJSON.c:2027-2058 | appending to a well-formed list adds the node at its end; on a list whose head points at no tail the node is dropped, and behind a tail that is no longer last the other children are cut off, both times with success |
| JsonList.DetachItemViaPointer | esp32-firmware/managed_components/espressif__cjson/cJSON/cJSON.c:2258-2292 | a child leaves the list, which is the old sequence without it; a well-formed list stays so, taking the last child out repairs a tail that was off, and taking out the child the head points at leaves it pointing out of the list |
| JsonList.InsertItemInArray | esp32-firmware/managed_components/espressif__cjson/cJSON/cJSON_Utils.c:693-728 | inserting at an index up to the length puts the node there in a well-formed list; a larger index is refused and changes nothing |
| JsonList.InsertOrAppend | esp32-firmware/managed_components/espressif__cjson/cJSON/cJSON.c:2334-2366 | as above, but an index past the end appends and a negative one is refused |
| JsonList.ReplaceItemViaPointer | esp32-firmware/managed_components/espressif__cjson/cJSON/cJSON.c:2368-2415 | the node takes the place of the old one in a well-formed list, and the old one is unlinked |
| JsonList.Split | esp32-firmware/managed_components/espressif__cjson/cJSON/cJSON_Utils.c:509-528 | the two-pointer walk cuts a list of at least two nodes into two well-formed lists at the middle, rounding up |
| JsonList.MergeLists | esp32-firmware/managed_components/espressif__cjson/cJSON/cJSON_Utils.c:530-593 | the merge loop relinks two separate lists into one well-formed list of their nodes in merge order, and keeps the `prev` of its head |
| JsonList.SortInPlace | esp32-firmware/managed_components/espressif__cjson/cJSON/cJSON_Utils.c:484-593 | the in-place sort ends in a well-formed list whose keyed nodes are the sorted permutation of the old ones; the head keeps its tail pointer only if it was the head before |
| JsonList.SortObject | esp32-firmware/managed_components/espressif__cjson/cJSON/cJSON_Utils.c:595-602 | sorting an object gives the sorted children; the tail pointer of the head is what it was if the head stayed and null if not, so the list stays well formed exactly if the first and the last child kept their places |
| JsonTails.SortKeepsHead | esp32-firmware/managed_components/espressif__cjson/cJSON/cJSON_Utils.c:484-602 | with unique keys the first member keeps its place exactly if its key is the least |
| JsonTails.SortKeepsLast | esp32-firmware/managed_components/espressif__cjson/cJSON/cJSON_Utils.c:484-602 | with unique keys the last member keeps its place exactly if its key is the greatest |
| JsonTails.SortKeepsTailExactly | esp32-firmware/managed_components/espressif__cjson/cJSON/cJSON_Utils.c:484-602 | sorting an object with unique keys keeps its tail exactly if the first key is the least and the last key the greatest |
| JsonTails.AppendedExactly | esp32-firmware/managed_components/espressif__cjson/cJSON/cJSON.c:2040-2055 | appending adds the member behind all others exactly if the tail was found, and otherwise the list does not grow |
| JsonTails.SortByOrder | esp32-firmware/managed_components/espressif__cjson/cJSON/cJSON_Utils.c:484-593 | the sorted list is the permutation that sorting the bare positions gives |
| JsonTails.AscendingStaysSound | esp32-firmware/managed_components/espressif__cjson/cJSON/cJSON_Utils.c:498-507 | members in ascending order are left alone, tail included |
| JsonTails.StaleTailCutsAMember | esp32-firmware/managed_components/espressif__cjson/cJSON/cJSON_Utils.c:484-602 | the members a, c, b: after the sort an appended member replaces c |
| JsonSort.SortPermutes | esp32-firmware/managed_components/espressif__cjson/cJSON/cJSON_Utils.c:484-593 | sorting neither loses nor invents members |
| JsonSort.SortSorts | esp32-firmware/managed_components/espressif__cjson/cJSON/cJSON_Utils.c:484-593 | no member of the result comes before one with a smaller key |
| JsonSort.SortAscends | esp32-firmware/managed_components/espressif__cjson/cJSON/cJSON_Utils.c:484-593 | members with unique keys come out strictly ascending |
| JsonSort.AscendingIsUnique | esp32-firmware/managed_components/espressif__cjson/cJSON/cJSON_Utils.c:604-690 | two strictly ascending lists with the same members are the same list |
| JsonTree.CompareTransitive | esp32-firmware/managed_components/espressif__cjson/cJSON/cJSON_Utils.c:83-109 | the key comparison is transitive, strictly if one side is strict |
| JsonTree.CompareAntisymmetric | esp32-firmware/managed_components/espressif__cjson/cJSON/cJSON_Utils.c:83-109 | swapping the arguments swaps the sign |
| JsonTree.CompareZeroIsSameKey | esp32-firmware/managed_components/espressif__cjson/cJSON/cJSON_Utils.c:83-109 | the comparison gives 0 exactly for equal keys, modulo case if asked |
| JsonTree.DuplicateExact | esp32-firmware/managed_components/espressif__cjson/cJSON/cJSON.c:2789-2873 | a deep copy from some depth on is the tree itself if it fits under the depth limit and fails otherwise |
| JsonTree.DuplicateIsIdentity | esp32-firmware/managed_components/espressif__cjson/cJSON/cJSON.c:2784-2787 | a deep copy succeeds exactly up to the limit, and is equal |
| JsonSort.CompareJsonDecides | esp32-firmware/managed_components/espressif__cjson/cJSON/cJSON_Utils.c:604-690 | with unique keys and int numbers the structural comparison is equality up to member order |
| JsonFolded.CompareIgnoringCaseDecides | esp32-firmware/managed_components/espressif__cjson/cJSON/cJSON_Utils.c:604-690 | without regard to case, with keys unique modulo case, it is equality up to member order and the case of keys |
| JsonSort.ComparedKeepsValue | esp32-firmware/managed_components/espressif__cjson/cJSON/cJSON_Utils.c:604-690 | what the comparison leaves of a tree, some of its objects sorted, has the same value |
| JsonPointer.ComparePointersLoop | esp32-firmware/managed_components/espressif__cjson/cJSON/cJSON_Utils.c:120-154 | the loop decides whether a key equals the first token of pointer text |
| JsonPointer.CompareEncoded | esp32-firmware/managed_components/espressif__cjson/cJSON/cJSON_Utils.c:120-196 | a key matches the encoding of another one, whatever follows it, exactly if the two are equal |
| JsonPointer.PointerEncodedLength | esp32-firmware/managed_components/espressif__cjson/cJSON/cJSON_Utils.c:156-171 | the buffer for an encoded key is sized exactly |
| JsonPointer.DecodeIndexLoop | esp32-firmware/managed_components/espressif__cjson/cJSON/cJSON_Utils.c:274-299 | the loop decodes an array index as the specification function does, with its wrap-around |
| JsonPointer.DecodeDecimal | esp32-firmware/managed_components/espressif__cjson/cJSON/cJSON_Utils.c:274-299 | the decimal text of a number decodes to that number modulo 2^32 |
| JsonPointer.GetItemFromPointer | esp32-firmware/managed_components/espressif__cjson/cJSON/cJSON_Utils.c:301-346 | walking the pointer token by token reaches the node the recursive resolution names |
| JsonPointer.FindPointerFinds | esp32-firmware/managed_components/espressif__cjson/cJSON/cJSON_Utils.c:198-259 | the search from a node writes a pointer exactly for the nodes below it, and it is the text of the path |
| JsonPointer.PointerRoundTrip | esp32-firmware/managed_components/espressif__cjson/cJSON/cJSON_Utils.c:198-346 | section 4 of RFC 6901: resolving the written pointer leads back to the target exactly if, along the path, every member is the first with its key and every index fits |
| JsonPointer.PointerRoundTripUnique | esp32-firmware/managed_components/espressif__cjson/cJSON/cJSON_Utils.c:198-346 | so it always does in a tree with unique keys |
| JsonPatch.DecodePointerInPlace | esp32-firmware/managed_components/espressif__cjson/cJSON/cJSON_Utils.c:359-390 | the array is rewritten in place to the decoded text, and the length is what remains of it |
| JsonPatch.DecodeUndoesEncode | esp32-firmware/managed_components/espressif__cjson/cJSON/cJSON_Utils.c:173-196 | decoding in place undoes encoding exactly for the keys the shifting does not damage |
| JsonPatch.DecodeDamagesExamples | esp32-firmware/managed_components/espressif__cjson/cJSON/cJSON_Utils.c:359-390 | "~a" and "/" are damaged |
| JsonPatch.PlainKeysSurvive | esp32-firmware/managed_components/espressif__cjson/cJSON/cJSON_Utils.c:359-390 | keys free of both escaped characters survive |
| JsonPatch.SurvivesExactly | esp32-firmware/managed_components/espressif__cjson/cJSON/cJSON_Utils.c:359-390 | a key that comes back equal modulo case comes back equal |
| JsonPatch.OnlyEscapesFollow | esp32-firmware/managed_components/espressif__cjson/cJSON/cJSON_Utils.c:359-390 | behind the first "~" of such a key there is nothing but "~" and "0" |
| JsonPatch.SurvivesByCharacters | esp32-firmware/managed_components/espressif__cjson/cJSON/cJSON_Utils.c:173-196 | which keys these are, read off their characters: no "/", nothing but "~" and "0" behind a "~", and a "~" wherever the encoding shifts one to |
| JsonPatch.DecodedVariant | esp32-firmware/managed_components/espressif__cjson/cJSON/cJSON_Utils.c:359-390 | the decoded key matches the key modulo case exactly if it survives |
| JsonPatchInPlace.ApplyPatches | esp32-firmware/managed_components/espressif__cjson/cJSON/cJSON_Utils.c:1067-1094 | patches are applied to the document in memory, in order until one fails, and anything but an array of patches is status 1 |
| JsonItems.ComparedErases | esp32-firmware/managed_components/espressif__cjson/cJSON/cJSON_Utils.c:604-690 | the comparison in memory, tails included, does to the tree what the comparison of values says |
| JsonPatchInPlace.OpExactly | esp32-firmware/managed_components/espressif__cjson/cJSON/cJSON_Utils.c:807-1036 | an operation acts in memory as on intact lists exactly if it adds to no object whose tail is off |
| JsonPatchInPlace.RunExactly | esp32-firmware/managed_components/espressif__cjson/cJSON/cJSON_Utils.c:1038-1094 | a patch list acts in memory as on intact lists, after every number of patches, exactly if none of its patches adds to an object whose tail is off at that moment |
| JsonPatchInPlace.RunWithoutTests | esp32-firmware/managed_components/espressif__cjson/cJSON/cJSON_Utils.c:1038-1094 | a list without a test does so on every fresh document |
| JsonPatchSorting.TestThenAddExactly | esp32-firmware/managed_components/espressif__cjson/cJSON/cJSON_Utils.c:807-1036 | after a test of a whole document, whatever it answers, a new member can be added exactly if the first key of the document is the least and its last key the greatest |
| JsonPatchSorting.AddedMemberIsLost | esp32-firmware/managed_components/espressif__cjson/cJSON/cJSON_Utils.c:807-1094 | the list of a test and an addition that reports success and adds nothing |
| JsonPatchSorting.OldMemberIsLost | esp32-firmware/managed_components/espressif__cjson/cJSON/cJSON_Utils.c:807-1094 | the list of a test and an addition that reports success and loses an old member |
| JsonPatchSorting.OwnSourceExactly | esp32-firmware/managed_components/espressif__cjson/cJSON/cJSON_Utils.c:1141-1306 | the patch that adds a member, applied to the object it was generated from instead of a copy, adds it exactly under the same condition, because generating has sorted the object |
| JsonPatchSorting.RoundTripInMemory | esp32-firmware/managed_components/espressif__cjson/cJSON/cJSON_Utils.c:807-1306 | the patch round trip on the lists in memory, starting from a fresh copy |
| JsonPatchCreate.CreatePatches | esp32-firmware/managed_components/espressif__cjson/cJSON/cJSON_Utils.c:1141-1279 | the recursion appends exactly the edits of the specification, each composed into a patch object, and leaves both trees with the objects it compared sorted |
| JsonPatchCreate.CreateArrayPatches | esp32-firmware/managed_components/espressif__cjson/cJSON/cJSON_Utils.c:1170-1213 | the array loops append the edits for common items, surplus and missing ones |
| JsonPatchCreate.CreateObjectPatches | esp32-firmware/managed_components/espressif__cjson/cJSON/cJSON_Utils.c:1215-1274 | the loop over both sorted member lists appends the edits for common, removed and added keys |
| JsonPatchCreate.WalkedKeepsValue | esp32-firmware/managed_components/espressif__cjson/cJSON/cJSON_Utils.c:1141-1279 | what generating leaves of a tree has the same value |
| JsonPatchRoundTrip.ApplyComposedAll | esp32-firmware/managed_components/espressif__cjson/cJSON/cJSON_Utils.c:1096-1134 | applying the composed patch objects is applying the edits they were composed from |
| JsonPatchRoundTrip.EditsBelow | esp32-firmware/managed_components/espressif__cjson/cJSON/cJSON_Utils.c:1141-1279 | edits whose paths start with a child token act on that child alone |
| JsonPatchRoundTrip.PatchRoundTrip | esp32-firmware/managed_components/espressif__cjson/cJSON/cJSON_Utils.c:807-1279 | RFC 6902: the case-sensitive patches from one tree to another, applied to a copy of the first, all succeed and give a tree equal to the second up to member order; only keys that end a path must survive, and only members taken out must have no earlier variant |
| JsonPatchRoundTrip.SurvivingTreesAreEditable | esp32-firmware/managed_components/espressif__cjson/cJSON/cJSON_Utils.c:807-1279 | so it holds for all trees with surviving keys, those of the first distinct modulo case |
| JsonPatchExact.RemovalExact | esp32-firmware/managed_components/espressif__cjson/cJSON/cJSON_Utils.c:430-1279 | from any object with unique keys to it without one member, the round trip works exactly if the key survives and no earlier key equals it modulo case |
| JsonPatchExact.AdditionExact | esp32-firmware/managed_components/espressif__cjson/cJSON/cJSON_Utils.c:807-1279 | to it with a new member, exactly if the key survives |
| JsonPatchExact.ReplacementExact | esp32-firmware/managed_components/espressif__cjson/cJSON/cJSON_Utils.c:807-1279 | to it with another value in one member, exactly if the key survives and no earlier key equals it modulo case |
| JsonPatchRemovals.RemovalsExactly | esp32-firmware/managed_components/espressif__cjson/cJSON/cJSON_Utils.c:430-1279 | from an object to any part of it, the round trip works exactly if every removal finds a member, in the document as it stands, that does not stay |
| JsonPatchRemovals.RemovalsByOrder | esp32-firmware/managed_components/espressif__cjson/cJSON/cJSON_Utils.c:430-1279 | where the removed keys survive, exactly if no member that stays comes before one that goes with the same key modulo case |
| JsonPatchExact.NoEdits | esp32-firmware/managed_components/espressif__cjson/cJSON/cJSON_Utils.c:1141-1279 | from a tree to itself no patch is generated |
| JsonPatchExact.DamagedKeyCannotBeRemoved | esp32-firmware/managed_components/espressif__cjson/cJSON/cJSON_Utils.c:359-481 | an example of a refused removal |
| JsonPatchExact.CaseVariantRemovesWrongMember | esp32-firmware/managed_components/espressif__cjson/cJSON/cJSON_Utils.c:393-481 | why an earlier variant matters: the removal of the second of two variants takes out the first |
| JsonPatchLaws.DetachTakesTheNode | esp32-firmware/managed_components/espressif__cjson/cJSON/cJSON_Utils.c:430-481 | detaching takes out the child that the last token finds and nothing else; a token that finds none changes nothing |
| JsonPatchLaws.EditAt | esp32-firmware/managed_components/espressif__cjson/cJSON/cJSON_Utils.c:807-1036 | at any location an edit acts on the node there alone |
| JsonPatchLaws.RemoveLaw | esp32-firmware/managed_components/espressif__cjson/cJSON/cJSON_Utils.c:807-1036 | section 4.2: at any location, the tree is left without exactly that node if and only if its token names it |
| JsonPatchLaws.ReplaceLaw | esp32-firmware/managed_components/espressif__cjson/cJSON/cJSON_Utils.c:807-1036 | section 4.3: exactly that node gets the value, if and only if its token names it |
| JsonPatchLaws.AddLaw | esp32-firmware/managed_components/espressif__cjson/cJSON/cJSON_Utils.c:807-1036 | section 4.1: at any location the member is set, old or new, if and only if its key survives |
| JsonPatchLaws.AddedMember | esp32-firmware/managed_components/espressif__cjson/cJSON/cJSON_Utils.c:1004-1016 | the value of an object with a member set |
| JsonPatchLaws.AddItemLaw | esp32-firmware/managed_components/espressif__cjson/cJSON/cJSON_Utils.c:981-1003 | section 4.1: an array element is inserted before the index, and at the end for "-" |
| JsonPatchLaws.MoveLaw | esp32-firmware/managed_components/espressif__cjson/cJSON/cJSON_Utils.c:807-1036 | section 4.4: a removal of the node that the source token finds, followed by an addition of it, or status 5 where it finds none; that node is the one named if and only if the token names it |
| JsonPatchLaws.CopyLaw | esp32-firmware/managed_components/espressif__cjson/cJSON/cJSON_Utils.c:807-1036 | section 4.5: an addition of the value found at the source |
| JsonPatchLaws.TestLaw | esp32-firmware/managed_components/espressif__cjson/cJSON/cJSON_Utils.c:807-1036 | section 4.6: succeeds exactly if the node equals the value up to member order, and leaves the document the same up to member order |
| JsonMerge.MergePatchLoop | esp32-firmware/managed_components/espressif__cjson/cJSON/cJSON_Utils.c:1321-1379 | the loop over the patch members computes the recursive function |
| JsonMerge.MergeIsRfc | esp32-firmware/managed_components/espressif__cjson/cJSON/cJSON_Utils.c:1321-1379 | it succeeds exactly if every copied value fits under the depth limit, and then its value is MergePatch of section 2 of RFC 7396, for unique keys |
| JsonMerge.MergeOnLowerKeys | esp32-firmware/managed_components/espressif__cjson/cJSON/cJSON_Utils.c:1321-1389 | on lower-case keys the case-insensitive variant computes the same |
| JsonMerge.CaseInsensitiveMergeExact | esp32-firmware/managed_components/espressif__cjson/cJSON/cJSON_Utils.c:1321-1384 | on trees with keys unique modulo case the default merge is MergePatch of RFC 7396 exactly if no key of the target differs by case alone from a key of the patch at the same place |
| JsonMergeGenerate.Restored | esp32-firmware/managed_components/espressif__cjson/cJSON/cJSON_Utils.c:1391-1471 | merging the difference of two values gives the second exactly if each of its null members is null in the first already |
| JsonMergeGenerate.GenerateIsDifference | esp32-firmware/managed_components/espressif__cjson/cJSON/cJSON_Utils.c:1391-1481 | where the sort and the walk go by the same order, the loop over the sorted member lists generates the difference, and no patch exactly for equal objects |
| JsonMergeGenerate.MergeRoundTrip | esp32-firmware/managed_components/espressif__cjson/cJSON/cJSON_Utils.c:1321-1481 | there, merging a generated patch into a copy gives the target exactly if each of its null members is null in the first tree already |
| JsonMergeGenerate.MergeRoundTripWithoutNulls | esp32-firmware/managed_components/espressif__cjson/cJSON/cJSON_Utils.c:1321-1481 | and always if the target has no null member |
| JsonMergeGenerate.LowerIsCompatible | esp32-firmware/managed_components/espressif__cjson/cJSON/cJSON_Utils.c:1321-1481 | the key orders agree on trees with lower-case keys |
| JsonMergeExact.MergeExactly | esp32-firmware/managed_components/espressif__cjson/cJSON/cJSON_Utils.c:1321-1481 | for every pair of trees with distinct keys, either generator and either merge: the round trip works exactly if no key is written by the walk while the first object has it still to come, no null or nested null has to be written, and at each key the walk meets the values are equal, or not taken for equal and themselves make it |
| JsonMergeExact.FlatExactly | esp32-firmware/managed_components/espressif__cjson/cJSON/cJSON_Utils.c:1321-1481 | between objects without nested values or nulls the keys alone decide: no key is written while the first object has it still to come |
| JsonMergeExact.RenamedKeyExactly | esp32-firmware/managed_components/espressif__cjson/cJSON/cJSON_Utils.c:1321-1481 | a change in the case of a key gets through exactly if the old key comes first by strcmp, or the merge heeds case |
| JsonMergeExact.NestedExactly | esp32-firmware/managed_components/espressif__cjson/cJSON/cJSON_Utils.c:1321-1481 | one level down, by the default generator: a change in nothing but the case of keys is lost, a null is lost, and anything else works as it does at the root |
| JsonMergeExact.DisagreeingOrdersDelete | esp32-firmware/managed_components/espressif__cjson/cJSON/cJSON_Utils.c:1391-1476 | for any keys k, l of which the sort puts k first and strcmp l: from {k, l} to {l} the default generator writes l, a null for k and a null for l, and merging leaves nothing |
| JsonMergeExact.OrdersDecide | esp32-firmware/managed_components/espressif__cjson/cJSON/cJSON_Utils.c:1321-1481 | on the trees over any set of keys distinct modulo case, every default patch to a target without nulls works if and only if ignoring case does not change the order of these keys |
| JsonMergeGenerate.CompareJsonOnCompatible | esp32-firmware/managed_components/espressif__cjson/cJSON/cJSON_Utils.c:604-690 | where the key orders agree, both case modes of the comparison answer alike |
| JsonMergeGenerate.CompareJsonOnLower | esp32-firmware/managed_components/espressif__cjson/cJSON/cJSON_Utils.c:604-690 | so do they on lower-case keys |
| JsonTextRoundTrip.StringRoundTrip | esp32-firmware/managed_components/espressif__cjson/cJSON/cJSON.c:824-1073 | a printed string parses back to itself with the text behind it untouched |
| JsonTextRoundTrip.Utf8IsStandard | esp32-firmware/managed_components/espressif__cjson/cJSON/cJSON.c:770-821 | the stored bytes are the shortest UTF-8 form: the decoding of section 3 of RFC 3629, which refuses longer forms, gives the code point back |
| JsonTextRoundTrip.EscapeBecomesUtf8 | esp32-firmware/managed_components/espressif__cjson/cJSON/cJSON.c:666-821 | anywhere in a string an escape of a code unit outside the surrogates becomes the UTF-8 of its code point |
| JsonTextRoundTrip.PairBecomesUtf8 | esp32-firmware/managed_components/espressif__cjson/cJSON/cJSON.c:703-821 | anywhere in a string a pair of surrogate escapes becomes the UTF-8 of the code point it stands for |
| JsonTextRoundTrip.LoneSurrogateFails | esp32-firmware/managed_components/espressif__cjson/cJSON/cJSON.c:703-821 | a low surrogate, or a high one that no low one follows, makes the string fail |
| JsonTextRoundTrip.ParseStringReadsAll | esp32-firmware/managed_components/espressif__cjson/cJSON/cJSON.c:824-951 | section 7 of RFC 8259: every body of plain characters, short escapes and code units is read as the bytes it stands for, up to a NUL, and refused exactly if it has a surrogate that is in no pair |
| JsonTextRoundTrip.NumberRoundTrip | esp32-firmware/managed_components/espressif__cjson/cJSON/cJSON.c:307-408 | the decimal text of a C int parses back to it, with either sign and at both limits |
| JsonTextRoundTrip.ValueRoundTrip | esp32-firmware/managed_components/espressif__cjson/cJSON/cJSON.c:1368-1896 | at any depth and before any text that cannot continue a number, a printed tree parses back to itself and leaves that text |
| JsonTextRoundTrip.PrintParseRoundTrip | esp32-firmware/managed_components/espressif__cjson/cJSON/cJSON.c:1147-1346 | RFC 8259: print, formatted or not, then parse is the identity |
| JsonParseBuffer.ParseBuffer.SkipSpace | esp32-firmware/managed_components/espressif__cjson/cJSON/cJSON.c:1090-1113 | skips blanks and control characters, but steps back onto the last byte of the buffer |
| JsonParseBuffer.ParseBuffer.FindClosingQuote | esp32-firmware/managed_components/espressif__cjson/cJSON/cJSON.c:838-865 | the first scan finds the closing quote if there is one, and counts the escapes it passed |
| JsonParseBuffer.ParseBuffer.RoomForTurn | esp32-firmware/managed_components/espressif__cjson/cJSON/cJSON.c:838-951 | on any input one turn of the second scan stays inside the estimated allocation, even if the scans disagree on where escapes start |
| JsonParseBuffer.ParseBuffer.StoreUtf8 | esp32-firmware/managed_components/espressif__cjson/cJSON/cJSON.c:770-821 | the bytes of a code point are stored last first, exactly in their place |
| JsonParseBuffer.ParseBuffer.ReadString | esp32-firmware/managed_components/espressif__cjson/cJSON/cJSON.c:824-951 | the string value and the cursor behind the quote, or failure, with all stores inside the allocation |
| JsonParseBuffer.ParseBuffer.ReadNumber | esp32-firmware/managed_components/espressif__cjson/cJSON/cJSON.c:307-408 | copies the run of number characters and takes from it what strtod takes |
| JsonParseBuffer.ParseBuffer.ReadArray | esp32-firmware/managed_components/espressif__cjson/cJSON/cJSON.c:1497-1592 | reads what the recursive grammar reads, or fails where it fails; on success the depth is restored |
| JsonParseBuffer.ParseBuffer.ReadObject | esp32-firmware/managed_components/espressif__cjson/cJSON/cJSON.c:1662-1777 | the same for objects |
| JsonParseBuffer.ParseBuffer.ReadValue | esp32-firmware/managed_components/espressif__cjson/cJSON/cJSON.c:1368-1420 | the same for any value |
| JsonParseBuffer.ParseWithOpts | esp32-firmware/managed_components/espressif__cjson/cJSON/cJSON.c:1131-1224 | the whole parse, with byte order mark and the optional check for the end |
| JsonPrintBuffer.PrintBuffer.Ensure | esp32-firmware/managed_components/espressif__cjson/cJSON/cJSON.c:490-573 | room for the bytes asked for and one more is there or made, within the limit, and the text written so far is kept |
| JsonPrintBuffer.PrintBuffer.UpdateOffset | esp32-firmware/managed_components/espressif__cjson/cJSON/cJSON.c:576-586 | moves the offset to the end of the text, wherever in it the offset was |
| JsonPrintBuffer.PrintBuffer.PrintStringPtr | esp32-firmware/managed_components/espressif__cjson/cJSON/cJSON.c:954-1073 | the escaped text is stored and terminated, exactly if it fits |
| JsonPrintBuffer.PrintBuffer.PrintArray | esp32-firmware/managed_components/espressif__cjson/cJSON/cJSON.c:1595-1659 | the text of the array follows what was there, exactly if it exists and ends two bytes before the limit |
| JsonPrintBuffer.PrintBuffer.PrintObject | esp32-firmware/managed_components/espressif__cjson/cJSON/cJSON.c:1780-1896 | the same for objects |
| JsonPrintBuffer.PrintBuffer.PrintValue | esp32-firmware/managed_components/espressif__cjson/cJSON/cJSON.c:1423-1494 | the same for any value; nothing before it changes |
| JsonPrintBuffer.PrintedNulFree | esp32-firmware/managed_components/espressif__cjson/cJSON/cJSON.c:954-1073 | printed text contains no NUL, so its length can be found |
| JsonPrintBuffer.PrintTree | esp32-firmware/managed_components/espressif__cjson/cJSON/cJSON.c:1239-1315 | the growing buffer yields the whole text, up to the largest C int |
| JsonPrintBuffer.PrintPreallocated | esp32-firmware/managed_components/espressif__cjson/cJSON/cJSON.c:1348-1365 | printing into a given buffer succeeds exactly if it is at least two bytes longer than the text |
| Replay.NewerId | esp32-firmware/main/ykp_core/ykp_replay.c:34-48 | for an id above the highest, the shifted or cleared window is the window of the ids accepted now |
| Replay.OlderId | esp32-firmware/main/ykp_core/ykp_replay.c:50-66 | an id not above the highest is fresh exactly if its bit is in the window and clear, and setting it gives the new window |
| Replay.ReplayContext.Check | esp32-firmware/main/ykp_core/ykp_replay.c:18-67 | accepts exactly the non-zero ids that were not accepted before and are less than 64 below the highest accepted one, and remembers them |
| Replay.ReplayContext.Reset | esp32-firmware/main/ykp_core/ykp_replay.c:6-16 | afterwards no id counts as accepted |
| Replay.ReplayGuard.Check | render-backend/src/security/replay-guard.ts:9-38 | accepts exactly the same ids, with a window that is never truncated |
| Replay.ReplayGuard.Reset | render-backend/src/security/replay-guard.ts:40-44 | afterwards no id counts as accepted |
| Replay.VerdictExactly | esp32-firmware/main/ykp_core/ykp_replay.c:18-67 | the verdict on the i-th id of any run, in terms of the verdicts before it |
| Replay.SameWindow | render-backend/src/security/replay-guard.ts:3-38 | after the same ids the firmware window is the backend window modulo 2^64 |
| Replay.RunBoth | esp32-firmware/main/ykp_core/ykp_replay.c:18-67 | on every stream of 32-bit ids both give the same verdicts |
| Delivery.Device.HandleIncomingPacket | esp32-firmware/main/main.c:151-219 | the order of the gates: ACK, security, active session, replay check, decryption; exactly what passes all of them is dispatched |
| Delivery.ServerSession.constructor | render-backend/src/router/session-manager.ts:24-47 | a pending session starts at counter 0 with a fresh guard |
| Delivery.ServerSession.Activate | render-backend/src/router/session-manager.ts:53-63 | activation empties the guard and leaves the counter |
| Delivery.ServerSession.SendYkpPacket | render-backend/src/router/route-engine.ts:52-84 | each attempt uses up the next id, whether or not the packet reaches the socket |
| Delivery.ServerSession.HandleMessage | render-backend/src/router/ykp-router.ts:124-200 | an application packet is dispatched exactly if the session is active, its id is fresh, it decrypts and its ACK can be built; a QoS 1 packet is acknowledged under the next id |
| Delivery.RunNumbers | render-backend/src/router/route-engine.ts:52-84 | in every run from any numbered world ids grow along the wire |
| Delivery.AcceptedExactly | esp32-firmware/main/main.c:151-219 | after every run exactly the ids are accepted that were accepted before or arrived in time, with no SESSION_ACTIVE since |
| Delivery.PassedExactly | esp32-firmware/main/main.c:151-219 | in every run, from any state, an id passes the replay check once for each stretch between SESSION_ACTIVE arrivals in which a copy arrives in time, and is dispatched once for each of these first copies that decrypts |
| Delivery.AtMostOnceExactly | esp32-firmware/main/main.c:156-219 | a new id passes at most once exactly if no SESSION_ACTIVE arrives between two arrivals in time of its copies |
| Delivery.ExactlyOnce | esp32-firmware/main/main.c:156-219 | within one session a new id passes exactly once if a copy arrives while the session is active and no id 64 or more higher was accepted, and never otherwise |
| Delivery.ArrivalOfPacket | render-backend/src/router/route-engine.ts:52-84 | an arrival of the id of a service packet is an arrival of that packet |
| Delivery.AcksNeverPass | esp32-firmware/main/main.c:158-163 | no ACK gets as far as the replay check |
| Delivery.SecondSessionActiveReplays | esp32-firmware/main/main.c:185-197 | a second copy of SESSION_ACTIVE empties the window, and an old packet passes again |
| Qos.Engine.constructor | esp32-firmware/main/ykp_core/ykp_qos.c:27-31 | all slots free, timer stopped |
| Qos.Engine.Enqueue | esp32-firmware/main/ykp_core/ykp_qos.c:33-68 | the first free slot takes the packet, cut to 1400 bytes, and it is sent whole; QoS 0 is only sent; nothing and a full table are refused |
| Qos.Engine.Ack | esp32-firmware/main/ykp_core/ykp_qos.c:70-89 | the first active QoS 1 slot with the id is freed |
| Qos.Engine.Pubrec | esp32-firmware/main/ykp_core/ykp_qos.c:91-102 | every active QoS 2 slot with the id goes on to wait for PUBCOMP |
| Qos.Engine.Pubcomp | esp32-firmware/main/ykp_core/ykp_qos.c:104-115 | every one of them that does is freed |
| Qos.Engine.Tick | esp32-firmware/main/ykp_core/ykp_qos.c:117-140 | each slot that is due is sent again with doubled delay, or given up after three retries |
| Qos.Engine.CheckAndStopTimer | esp32-firmware/main/ykp_core/ykp_qos.c:12-25 | the timer stops exactly if no slot is active |
| QosRuns.RunKeeps | esp32-firmware/main/ykp_core/ykp_qos.c:12-140 | every run keeps all of the invariants below |
| QosRuns.Conservation | esp32-firmware/main/ykp_core/ykp_qos.c:33-140 | accepted packets are active, acknowledged, completed or given up, and no packet is two of these |
| QosRuns.AtMostFourTransmissions | esp32-firmware/main/ykp_core/ykp_qos.c:117-140 | no accepted packet is ever sent more than four times |
| QosRuns.ActiveSlotsWaitAndAreTimed | esp32-firmware/main/ykp_core/ykp_qos.c:12-140 | an active QoS 2 slot waits for exactly one of PUBREC and PUBCOMP, and with a timer none is active while it is stopped |
| QosRuns.FreedInTime | esp32-firmware/main/ykp_core/ykp_qos.c:117-140 | with ticks at most P ms apart a slot is freed at most 7000 + 4P ms after its packet was accepted |
| Cbor.BigEndianRoundTrip | esp32-firmware/main/ykp_core/ykp_packet.c:14-35 | a number that fits its width is read back from its big-endian bytes |
| Cbor.ItemEndOfEncoded | esp32-firmware/main/ykp_core/ykp_packet.c:350-376 | the cursor steps over an encoded item exactly, wherever it stands |
| Tlv.Builder.WriteByte | esp32-firmware/main/ykp_core/ykp_cbor.h:34-40 | a byte is appended, or the overflow flag is set and nothing changes |
| Tlv.Builder.WriteUint | esp32-firmware/main/ykp_core/ykp_cbor.h:72-94 | the shortest form of an unsigned number, section 4.2.1 of RFC 8949, or overflow |
| Tlv.Builder.WriteInt | esp32-firmware/main/ykp_core/ykp_cbor.h:97-119 | the same for a signed number |
| Tlv.Builder.AddUint | esp32-firmware/main/ykp_core/ykp_packet.c:240-286 | succeeds exactly if key and item fit, and then appends them; earlier bytes never change |
| Tlv.Builder.AddInt32 | esp32-firmware/main/ykp_core/ykp_packet.c:264-270 | the same for signed numbers |
| Tlv.Builder.AddHalf | esp32-firmware/main/ykp_core/ykp_packet.c:272-278 | the same for half-precision floats |
| Tlv.Builder.AddString | esp32-firmware/main/ykp_core/ykp_packet.c:288-302 | the same for strings and byte strings |
| Tlv.Builder.Finish | esp32-firmware/main/ykp_core/ykp_packet.c:305-315 | the break byte ends the map, over the last byte if the buffer is full |
| Tlv.BuildInFirmware | esp32-firmware/main/ykp_core/ykp_packet.c:219-315 | a list of adds succeeds exactly if it fits, and with room for the break byte the buffer holds the encoded map |
| Tlv.BuildInBackend | render-backend/src/packet/builder.ts:89-203 | any run of adds gives the map of what each of them pushes, or an exception where a write is out of range |
| Tlv.BackendAgrees | render-backend/src/packet/builder.ts:89-203 | the payload is the firmware payload for the same values exactly if every number is added in its own width, and addBigInt is given more than 32 bits |
| Tlv.SameUnsignedBytes | render-backend/src/packet/builder.ts:105-196 | each unsigned add of the backend writes the firmware form exactly for the values of its width, and addBigInt only for values above 32 bits |
| TlvFind.Find | esp32-firmware/main/ykp_core/ykp_packet.c:318-386 | the loop over the map finds what the recursive search finds |
| TlvFind.FindsFirst | esp32-firmware/main/ykp_core/ykp_packet.c:318-386 | in a built map a key is found with the whole encoded item of its first entry, and an absent key is not found |
| TlvFind.ParseTlv | render-backend/src/packet/parser.ts:62-115 | the loop collects the entries the recursive parse collects, and throws where it does |
| TlvFind.ParsesAll | render-backend/src/packet/parser.ts:62-120 | a built map parses to its pairs in order, and the first entry of a key is found |
| TlvRead.UintRoundTrip | esp32-firmware/main/ykp_core/ykp_packet.c:388-507 | a firmware reader gives a number back exactly if its type can hold it, and refuses it otherwise |
| TlvRead.Int32RoundTrip | esp32-firmware/main/ykp_core/ykp_packet.c:436-454 | signed 32-bit numbers come back, on both sides |
| TlvRead.TsUintRoundTrip | render-backend/src/packet/parser.ts:134-147 | the backend reader gives back what fits in 32 bits, and 0 for anything larger |
| TlvRead.StringRoundTrip | render-backend/src/packet/parser.ts:122-132 | a string comes back whole exactly up to 255 bytes |
| TlvRead.AcrossTheWire | render-backend/src/packet/parser.ts:62-164 | in a built map both finders give the same bytes for a key, and the readers of both sides recover the value first added for it, a number exactly as far as the type of the reader holds it |
| Ota.OtaService.Handle | esp32-firmware/main/services/ota_service.c:47-196 | for BEGIN, CHUNK, COMPLETE and INSTALL the new state and the replies are the specified ones, and any other action changes nothing |
| Ota.OtaService.HandleBegin | esp32-firmware/main/services/ota_service.c:53-105 | state is cleared; a hash item of another length than 32, no partition or a failed start leave the update inactive and report failure |
| Ota.OtaService.HandleChunk | esp32-firmware/main/services/ota_service.c:107-150 | only the expected chunk is written, hashed and counted; any other one is answered by a request for the expected one |
| Ota.RunAssembles | esp32-firmware/main/services/ota_service.c:107-150 | flash image, hash input and the chunks in the order 0, 1, 2, ... stay one and the same over every stream of chunk messages |
| Ota.UpdateIsVerified | esp32-firmware/main/services/ota_service.c:47-182 | from an activating BEGIN to the first COMPLETE: VERIFY is sent exactly if the update is active, the hash of the flash image is the stored one, and the driver finishes |
| Ota.FlashIsPrefixOfImage | esp32-firmware/main/services/ota_service.c:107-150 | however chunks of one image of fewer than 65536 chunks are lost, repeated or reordered, flash holds an initial run of them |
| Ota.ChunksWritten | esp32-firmware/main/services/ota_service.c:107-150 | with writes that succeed, the first n chunks have been written exactly if they have arrived in order among the messages |
| Ota.WholeImage | esp32-firmware/main/services/ota_service.c:107-150 | so the whole image is in flash exactly if all its chunks have |
| Ota.FlashKeptExactly | esp32-firmware/main/services/ota_service.c:107-202 | after a good COMPLETE, over every list of messages that starts no other update, flash is still the verified image exactly if no chunk with the next index is written before a failed write, a failed COMPLETE or a refused BEGIN ends the update |
| Ota.LateChunksExactly | esp32-firmware/main/services/ota_service.c:107-182 | with writes that succeed, exactly if no later chunk has the next index |
| Ota.HashedIsFlash | esp32-firmware/main/services/ota_service.c:47-202 | in every run an open hash operation has been fed exactly what is in flash |
| Ota.InstallBootsVerifiedExactly | esp32-firmware/main/services/ota_service.c:47-202 | over every run: INSTALL reboots whatever the state, and what it boots is a verified image exactly if a COMPLETE has answered VERIFY since the last update started and no chunk was written after it |
| Ota.HashMustHave30Bytes | esp32-firmware/main/services/ota_service.c:62-71 | a BEGIN that announces a hash as a byte string gets through exactly if the hash has 30 bytes |
| Ota.RealHashIsRefused | esp32-firmware/main/services/ota_service.c:62-71 | so a 32-byte hash is refused |
| Ota.HeadIsWritten | esp32-firmware/main/services/ota_service.c:136-147 | what reaches flash for a chunk is its encoded item, head included |
| PacketCodec.Serialise | esp32-firmware/main/ykp_core/ykp_packet.c:118-151 | the buffer holds the wire form if it is large enough and is untouched if not, exactly unless the 16-bit total has wrapped around and is accepted |
| PacketCodec.Build | render-backend/src/packet/builder.ts:20-65 | the same for the backend, or an exception where a write is out of range |
| PacketCodec.FirmwareRoundTrip | esp32-firmware/main/ykp_core/ykp_packet.c:118-216 | parsing undoes serialising exactly for payloads of up to 512 bytes, and refuses longer ones |
| PacketCodec.BackendRoundTrip | render-backend/src/packet/parser.ts:32-59 | parsing undoes building for payloads of up to 65535 bytes and plain ids |
| PacketCodec.SameBytes | render-backend/src/packet/builder.ts:20-65 | both writers produce the same bytes for the same fields |
| PacketCodec.BackendReads | render-backend/src/packet/parser.ts:32-59 | the backend reads what the firmware wrote, ids exactly as far as they are plain |
| PacketCodec.FirmwareReads | esp32-firmware/main/ykp_core/ykp_packet.c:153-216 | the firmware reads what the backend wrote, if the payload fits its receive buffer |
| PacketCodec.IdRoundTrip | render-backend/src/packet/parser.ts:46-53 | an id comes back from its eight bytes exactly if it is at most eight characters without NUL or blank ends |
| Float16.TruncatesTowardZero | esp32-firmware/main/ykp_core/ykp_cbor.h:150-168 | every float32 below 2^16 lies between its encoded half and the next half above, in magnitude |
| Float16.ErrorBounds | render-backend/src/packet/builder.ts:67-86 | the error is below 2^-10 of the value for normal halves and below 2^-24 elsewhere |
| Float16.LargeIsInfinity | esp32-firmware/main/ykp_core/ykp_cbor.h:150-168 | finite values from 2^16 on become infinity |
| Float16.BackendDecodesTruncated | render-backend/src/packet/parser.ts:167-177 | backend decoding of what either side encoded gives the value rounded toward zero, with its sign |
| Float16.InfinityIsDecodedWrong | render-backend/src/packet/parser.ts:173-175 | infinity is decoded as 2^-15 |
| Float16.FirmwareDecode | esp32-firmware/main/ykp_core/ykp_packet.c:456-490 | the normalising loop computes the specified float32 |
| Float16.FirmwareDecodesTo | esp32-firmware/main/ykp_core/ykp_packet.c:456-490 | normal halves are decoded exactly, subnormal ones to half their value |
| Float16.FirmwareRoundTrip | esp32-firmware/main/ykp_core/ykp_packet.c:456-490 | decoding and encoding again gives a half back exactly if it is zero, normal, infinite or the one NaN the encoder writes |
| WsSend.SendWithExactOpcode | esp32-firmware/managed_components/espressif__esp_websocket_client/esp_websocket_client.c:716-772 | the loop ends; what the transport took is a run of the data, all of it on success; frames fit the buffer and only the first carries the opcode; with full writes the frames are the fragmentation |
| WsSend.FragmentsReassemble | esp32-firmware/managed_components/espressif__esp_websocket_client/esp_websocket_client.c:716-772 | section 5.4 of RFC 6455: a receiver puts the fragments together to the message and sees its end exactly if FIN was requested |
| WsSend.FragmentShape | esp32-firmware/managed_components/espressif__esp_websocket_client/esp_websocket_client.c:716-772 | every fragment fits the buffer, only the first carries the opcode, and FIN is on the last one exactly if requested |
| WsClient.Client.AbortConnection | esp32-firmware/managed_components/espressif__esp_websocket_client/esp_websocket_client.c:258-294 | closes and reports a loss exactly in INIT and CONNECTED, and changes nothing in any other state |
| WsClient.Client.HandlerSend | esp32-firmware/managed_components/espressif__esp_websocket_client/esp_websocket_client.c:682-774 | a send from the event handler acts as specified and restores both locks on every path |
| WsClient.Client.Recv | esp32-firmware/managed_components/espressif__esp_websocket_client/esp_websocket_client.c:1066-1146 | receiving acts as specified and restores both locks on every path, a lock timeout before PONG included |
| WsClient.Client.Turn | esp32-firmware/managed_components/espressif__esp_websocket_client/esp_websocket_client.c:1174-1404 | one turn of the client task, with other threads running wherever the lock is free and between the reads of the state without it, acts as specified and restores both locks |
| WsClient.Client.RunTask | esp32-firmware/managed_components/espressif__esp_websocket_client/esp_websocket_client.c:1150-1415 | so does every run, of any length and interleaving |
| WsLifecycle.RunIsLegal | esp32-firmware/managed_components/espressif__esp_websocket_client/esp_websocket_client.c:1150-1415 | every run has a legal log that ends in FINISH, with one late report for each send of another thread that failed in INIT |
| WsLifecycle.ConnectionsAreSeparated | esp32-firmware/managed_components/espressif__esp_websocket_client/esp_websocket_client.c:1150-1415 | in a legal log a DISCONNECTED or CLOSED lies between any two CONNECTED events |
| WsLifecycle.ReportedOnceExactly | esp32-firmware/managed_components/espressif__esp_websocket_client/esp_websocket_client.c:258-294 | in a legal log a loss is reported once before the next attempt exactly if no late report lies between |
| WsLifecycle.LossesAreReportedOnce | esp32-firmware/managed_components/espressif__esp_websocket_client/esp_websocket_client.c:258-1415 | in every run in which no other thread's send fails in INIT, every loss is reported once before the next attempt |
| WsLifecycle.ReportsALossTwice | esp32-firmware/managed_components/espressif__esp_websocket_client/esp_websocket_client.c:682-1415 | a second report does happen, in a whole run of the client task |

## Left out

- JsonPatchInPlace.ApplyPatches: a test sorts the value in its patch as well; the patch list is not followed, since no patch is read twice. An addition through a pointer to a node outside the list ends the model of the run.
- JsonPatchRoundTrip.PatchRoundTrip: the condition on the two trees is sufficient; that it is necessary is proved for one changed member; the exact condition for removals, in JsonPatchRemovals, is a weaker one.
- JsonMergeExact.MergeExactly: keys distinct modulo case below the root. The comparison may have sorted values that are then copied into the patch; the order of their members is not followed.
- JsonPatchLaws.MoveLaw: a `from` that is not a string dereferences a null pointer in the code; the model gives it the status of a missing node.
- JsonList.AddItemToArray: a node that is already in a list, which the code does not detect, is outside the contract.
- JsonTextRoundTrip.PrintParseRoundTrip: for numbers that a C int holds; "%1.15g", strtod rounding, NaN and locale are not modelled, and a tree with another number has no printed text here.
- JsonParseBuffer.ParseBuffer.ReadNumber: strtod is taken on exact decimal numbers, without hexadecimal, infinity and NaN forms, none of which its input can spell.
- JsonPrintBuffer.PrintTree: allocation always succeeds; a failed reallocation and its clean-up are not modelled.
- PacketCodec.Serialise: where its writes leave the buffer, nothing is said about what they change.
- TlvFind.Find: a read behind the buffer and a cursor beyond 16 bits are two outcomes of their own; what the code would find after them is not followed.
- TlvRead.UintRoundTrip: an item shorter than its head says is refused; the code reads the bytes that follow.
- Ota.OtaService.Handle: version, size and signature are stored but never used by the code and are left out; an item that runs past its payload counts as missing.
- Float16.BackendDecodesTruncated: rounding to two decimals in tlvReadFloat is left out.
- Delivery.ExactlyOnce: server-to-device traffic only; the two sides number device-to-server packets differently.
- QosRuns.FreedInTime: starting a running timer restarts it, so enqueueing faster than the period delays ticks; that ticks come in time is an assumption.
- WsClient.Client.RunTask: between two points where the lock is free the client task runs undisturbed; reads on a closed transport fail and the event handler does not send on ERROR, DISCONNECTED or CLOSE frames.
- WsSend.SendWithExactOpcode: a positive buffer size, as the client's configuration guarantees, and a transport that takes no more than it is given.
- Raw JSON items, references, NULL keys, cJSON_Minify and cJSON_Compare.
- Encryption, key agreement, signatures and hashing: hashes are uninterpreted, keys do not appear.
- Several devices at once: sessions are independent, and routing between devices is not modelled.
- Wi-Fi, provisioning, sensors, persistence, REST interfaces, web and mobile applications: input and output around the modelled core.

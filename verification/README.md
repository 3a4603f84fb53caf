# A verified model of the torrent client's core

The client is written in C. This project models the parts of it where the logic is, and proves
what they promise for every input, every run and every interleaving:

- `Bytes.dfy`, `BencodeFormat.dfy`, `BencodeTree.dfy`, `BencodeCursor.dfy`: the bencode reader.
  Values are a datatype with an encoder. Trees are the looser texts the reader accepts, with
  a reading function and a grammar that says where a tree stands; the two are proved to agree,
  and the strict trees are proved to be the values. The cursors are objects whose position
  moves through a buffer, and on every input their methods do what the reading function says.
  Every cursor method is total: a `Fault` result stands for a failed assertion or for undefined
  behaviour (a read outside the buffer, a NULL dereference, a number too large for its C type).
- `BencodeExamples.dfy`: texts byte for byte, among them the examples of BEP 3.
- `BencodeToHashmap.dfy`: dictionaries turned into trees of hash maps and lists, for every text
  the reader accepts.
- `JenkinsHash.dfy`, `Hashmap.dfy`, `Linkedlist.dfy`: the hash on 32-bit words, the chained
  hash map and the linked list, as mutable objects with their abstract contents.
- `StringUtils.dfy`, `Magnet.dfy`, `Torrent.dfy`: percent-encoding, splitting, the two-state
  character machine that reads a magnet link, and where its pairs go.
- `Tracker.dfy`: a tracker's address, and its connect and announce exchanges with retries.
- `RandUtils.dfy`: rejection sampling, the shuffle, and words with a chosen number of set bits.
- `ThreadPool.dfy`, `ThreadPoolFairness.dfy`: workers, submitters and the pool's owner as a state
  machine of atomic steps, and its endless runs under a fair scheduler.

A method that the program writes as a loop or an update in place is a method here, proved
against a function or a relation on values; what those functions mean is then proved in lemmas.

## Where the program does less than it promises

- A lookup in the hash map that passes the head of a chain calls itself on the same bucket
  (`bucket.c:141` passes `this`, not `this->next`) and never returns. The map therefore agrees
  with its log of bindings exactly for the keys for which `Answered` holds: the key heads its
  chain, or nothing follows the head. `CollisionHangs` gives two concrete keys, `bb` and `bq`,
  of which the second cannot be looked up; `AllAnsweredIff` says when every key can.
- Destroying the pool does not wait for calls of `add_job` that are waiting for the mutex.
  `AppendAfterFree` is a run in which such a call appends to the freed queue. `LateCalls` gives
  the condition: a freed pool is stepped on, and a job is lost, exactly if a call was in progress
  when the owner locked the mutex to drain the queue, or began after that.
- `bencode_validate` accepts more than values. `BencodeCursor.Validate` says what: the texts at
  whose start a tree stands. `AcceptedIsValueIff` says when that is a value: exactly if the tree
  is strict (no leading zero, no stray 'd', every dict ended by 'e') and lies within the length.
  `TruncatedDictPasses` is a text that is accepted and is no value.
- `bencode_dict_get_start_and_len` gives length 1 for an empty dictionary.
- An announce that retried returns success, whatever the retry returned:
  `RefusedAnnounceSucceeds` is one that is refused, and `AnnounceTellsTruthIff` says when the
  result is true. A run of timeouts leaves the attempts used up, so that each later call tries
  only once until an answer comes.
- `string_split` does not look at its delimiter: `SplitMeetsDelimiter` says when that does no
  harm, and `SplitIgnoresComma` is a text where it does.
- The link reader keeps a last byte that is `&` as part of the last value, and an empty last
  value loses its pair. `LinkRoundTrip` gives the exact condition for reading back what was
  written.

## Model

| member | source | states |
|---|---|---|
| `BencodeFormat.DigitsSpell` | src/utils/bencode/bencode.c:141-150 | the decimal text of a number consists of digits and reads back as that number |
| `BencodeFormat.DigitIsDistance` | src/utils/bencode/bencode.c:145 | a digit byte is worth its distance from 0x30 |
| `BencodeExamples.SpecExamples` | src/utils/bencode/bencode.c:121-176 | integers, strings, lists and dicts byte for byte, as in the bencoding section of BEP 3 |
| `BencodeFormat.Widths` | src/utils/bencode/bencode.c:121-124 | the bounds of an int and a long are those of 32 and 64 bits |
| `BencodeFormat.OneValueAt` | src/utils/bencode/bencode.c:200-263 | the format is prefix-free: at one position at most one value is encoded, so the end of a value is well defined |
| `BencodeTree.ReadIffStands` | src/utils/bencode/bencode.c:200-263 | the reading function finds a tree at a position, with its end, if and only if that tree stands there by the grammar; then its text is there |
| `BencodeTree.EncodingRead` | src/utils/bencode/bencode.c:200-263 | an encoded value with room for it is read as its own tree, up to its last byte |
| `BencodeTree.StrictText` | src/utils/bencode/bencode.c:532-584 | the text of a strict tree is the encoding of its value |
| `BencodeTree.ValueIffStrict` | src/utils/bencode/bencode.c:532-593 | some value is encoded at a position within a length if and only if the tree read there is strict and lies within it |
| `BencodeExamples.NumberExample` | src/utils/bencode/bencode.c:121-154 | the bytes of i-12e are read as -12 |
| `BencodeExamples.DictReadExample` | src/utils/bencode/bencode.c:342-401 | the bytes of d3:cow3:mooe are read as one pair, cow and moo |
| `BencodeTree.DictStopsAt` | src/utils/bencode/bencode.c:325-334 | where a dict stops, in bytes: e, NUL, carriage return, de, or the end of its length |
| `BencodeExamples.LeadingZeros` | src/utils/bencode/bencode.c:141-150 | the bytes of i007e are read as 7, and not strictly |
| `BencodeExamples.CarriageReturnEnds` | src/utils/bencode/bencode.c:325-334 | a dict whose last byte is a carriage return is read, and not strictly |
| `BencodeCursor.ReadStringInt` | src/utils/bencode/bencode.c:121-154 | on every input: succeeds exactly on a sign or none and digits that fit a `long`, with their value and end |
| `BencodeCursor.ReadStringLen` | src/utils/bencode/bencode.c:265-287 | on every input: succeeds exactly on digits that fit an `int` and a colon, with the length and the position after the colon |
| `BencodeCursor.Cursor.CarryLength` | src/utils/bencode/bencode.c:108-115 | succeeds exactly if the length is positive and the result fits an `int`; a child's believed end is measured from the parent's position and not from its start |
| `BencodeCursor.Cursor.IsDict` | src/utils/bencode/bencode.c:156-161 | true exactly on a 'd'; a cursor at NULL is no dict |
| `BencodeCursor.Cursor.IsInt` | src/utils/bencode/bencode.c:163-168 | true exactly on an 'i' |
| `BencodeCursor.Cursor.IsList` | src/utils/bencode/bencode.c:170-175 | true exactly on an 'l' |
| `BencodeCursor.Cursor.IsString` | src/utils/bencode/bencode.c:177-194 | true exactly on digits followed by a colon; faults exactly where it reads past the buffer |
| `BencodeCursor.Cursor.IntValue` | src/utils/bencode/bencode.c:302-315 | succeeds exactly on a signed number ended by an e, with its value; so on every encoded integer |
| `BencodeCursor.Cursor.StringValue` | src/utils/bencode/bencode.c:403-429 | succeeds exactly if a length stands here and its text ends before the believed end, with the text's slice |
| `BencodeCursor.Cursor.DictHasNext` | src/utils/bencode/bencode.c:317-340 | on every input: true exactly where the reading function goes on with a pair |
| `BencodeCursor.Cursor.DictGetNext` | src/utils/bencode/bencode.c:342-401 | on every input: succeeds exactly if the reading function finds a pair here; then gives the key's slice and a cursor on the value with the length carried over, and moves to the pair's end |
| `BencodeCursor.Cursor.ListHasNext` | src/utils/bencode/bencode.c:431-455 | on every input: true exactly if the next item does not start with an e; steps over the start of an empty list |
| `BencodeCursor.Cursor.ListGetNext` | src/utils/bencode/bencode.c:457-503 | on every input: succeeds exactly if the reading function finds an item here, with a cursor on it, and moves to its end |
| `BencodeCursor.Cursor.IterateToNextStringPos` | src/utils/bencode/bencode.c:200-263 | skipping is exact: on every input it succeeds exactly where a tree is read and gives the position after it; so for every value of any nesting inside any buffer, the position after its encoding |
| `BencodeCursor.Cursor.SkipDict` | src/utils/bencode/bencode.c:209-224 | the dict branch ends where the reading function does, on every input |
| `BencodeCursor.Cursor.SkipList` | src/utils/bencode/bencode.c:225-236 | the list branch ends where the reading function does, on every input |
| `BencodeCursor.Cursor.SkipInt` | src/utils/bencode/bencode.c:248-259 | the integer branch ends just after the e, and succeeds exactly if there is one |
| `BencodeCursor.Cursor.DictGetStartAndLen` | src/utils/bencode/bencode.c:513-530 | on every input the slice up to where the pairs stop; for an encoded dict the whole of it, except that the empty dict gives 1; the cursor itself does not move |
| `BencodeCursor.Cursor.Validate` | src/utils/bencode/bencode.c:532-584 | terminates, and returns 0 exactly on what the reading function reads |
| `BencodeCursor.Cursor.ValidateDict` | src/utils/bencode/bencode.c:534-549 | the dict branch returns 0 exactly on the dicts that are read |
| `BencodeCursor.Cursor.ValidateList` | src/utils/bencode/bencode.c:550-564 | the list branch returns 0 exactly on the lists that are read |
| `BencodeCursor.Validate` | src/utils/bencode/bencode.c:586-593 | with an honest length, accepts exactly the texts at whose start a tree stands; so every encoded value |
| `BencodeCursor.AcceptedIsValueIff` | src/utils/bencode/bencode.c:532-593 | what stands there is an encoded value if and only if a strict tree stands there within the length |
| `BencodeCursor.ValidateEncoding` | src/utils/bencode/bencode.c:586-593 | in a buffer that ends with the value's last byte validation succeeds, so no read leaves the encoding |
| `BencodeCursor.TruncatedDictPasses` | src/utils/bencode/bencode.c:532-593 | a d alone is accepted: its tree stands there, is not strict, and no value is encoded there |
| `BencodeToHashmap.LookupFindsFirst` | src/utils/bencode/bencode.c:24-103 | in a map that holds the first pairs of a dict, the binding of a key represents the first value those pairs give it, and a key they lack has none |
| `BencodeToHashmap.ToHashmap` | src/utils/bencode/bencode.c:24-103 | for every dict the reader accepts, of any size and nesting, the map holds its pairs in order up to the first one that finds every slot used |
| `BencodeToHashmap.Convert` | src/utils/bencode/bencode.c:44-98 | each kind of value becomes its kind of item, for every text the reader accepts |
| `BencodeToHashmap.CopyString` | src/utils/bencode/bencode.c:54-65 | a string's bytes are copied exactly |
| `BencodeToHashmap.ToList` | src/utils/bencode/bencode.c:66-98 | a list keeps its string and dict elements in order and nothing else |
| `BencodeToHashmap.ConvertItem` | src/utils/bencode/bencode.c:78-93 | a list element is kept if and only if it is a string or a dict |
| `BencodeToHashmap.KeptOfEach` | src/utils/bencode/bencode.c:78-93 | of a list of an integer, a string, a list and a dict, the string and the dict are kept, in order |
| `BencodeToHashmap.DecodeAndGet` | src/utils/bencode/bencode.c:24-103 | end to end: encode any dict, convert it, look a key up; the lookup answers if and only if no other key took the slot, and then gives the first value among the pairs stored, or nothing |
| `JenkinsHash.GetHash` | src/data_structures/hashmap/hashmap.c:168-180 | the loop computes the hash function the lemmas are about |
| `JenkinsHash.HashExamples` | src/data_structures/hashmap/hashmap.c:168-180 | the hash of three literal keys, two of them with bytes from 0x80 on, which count as negative |
| `JenkinsHash.RoundInjective` | src/data_structures/hashmap/hashmap.c:172-174 | mixing in a byte is injective in the state, and in the byte |
| `JenkinsHash.AvalancheInjective` | src/data_structures/hashmap/hashmap.c:176-178 | the final mixing is injective on 32-bit words |
| `JenkinsHash.MixedInjective` | src/data_structures/hashmap/hashmap.c:170-175 | different states stay different however many bytes follow |
| `JenkinsHash.OneByteNeverCollides` | src/data_structures/hashmap/hashmap.c:168-180 | two keys of equal length that differ in exactly one byte never have the same hash |
| `Hashmaps.FirstBindingWins` | src/data_structures/hashmap/bucket.c:100-121 | setting a key again changes no binding; setting a new key changes only that key's |
| `Hashmaps.LookupIsFirst` | src/data_structures/hashmap/bucket.c:137-145 | the abstract lookup is the first binding of the key, by position |
| `Hashmaps.LookupInSlot` | src/data_structures/hashmap/hashmap.c:127-136 | looking in the key's chain alone loses nothing |
| `Hashmaps.InSlotHashes` | src/data_structures/hashmap/hashmap.c:99-107 | a chain holds the bindings whose keys hash to it and no others |
| `Hashmaps.SlotsUsedAtMost` | src/data_structures/hashmap/hashmap.c:94-111 | no more slots are used than bindings were set |
| `Hashmaps.RefusedWhenFull` | src/data_structures/hashmap/hashmap.c:94-111 | if a binding is refused, those stored before it use every slot |
| `Hashmaps.FewAreStored` | src/data_structures/hashmap/hashmap.c:94-111 | as many bindings as there are slots are always stored |
| `Hashmaps.AloneIsAnswered` | src/data_structures/hashmap/bucket.c:137-145 | a lookup answers when no other key shares the slot |
| `Hashmaps.AllAnsweredIff` | src/data_structures/hashmap/bucket.c:137-145 | every key that was set can be looked up if and only if no two of them share a slot |
| `Hashmaps.FoundStaysFound` | src/data_structures/hashmap/bucket.c:100-145 | a key that can be found keeps its value whatever is set later |
| `Hashmaps.TakenSlotLoses` | src/data_structures/hashmap/bucket.c:137-145 | a key set into a slot headed by another key can never be looked up |
| `Hashmaps.CollisionHangs` | src/data_structures/hashmap/bucket.c:137-145 | the concrete keys for which the lookup does not return |
| `Hashmaps.Bucket.constructor` | src/data_structures/hashmap/bucket.c:53-59 | a new bucket is a chain of one binding |
| `Hashmaps.Bucket.Set` | src/data_structures/hashmap/bucket.c:100-126 | appends the binding to the chain and overwrites nothing |
| `Hashmaps.Bucket.Get` | src/data_structures/hashmap/bucket.c:137-145 | the first binding in the chain if the head settles the lookup; otherwise no return |
| `Hashmaps.Bucket.GetIsTheCall` | src/data_structures/hashmap/bucket.c:137-145 | unwinding the self-call: no number of nested calls is enough exactly when the lookup hangs, and otherwise the calls return what the lookup gives |
| `Hashmaps.Hashmap.constructor` | src/data_structures/hashmap/hashmap.c:48-54 | an empty table |
| `Hashmaps.Hashmap.Set` | src/data_structures/hashmap/hashmap.c:94-115 | refused if and only if no slot is free, which is when the keys already set use all slots; otherwise the log grows by the binding, chains stay apart and the count is the number of occupied slots |
| `Hashmaps.Hashmap.Get` | src/data_structures/hashmap/hashmap.c:127-140 | equals the lookup in the log if and only if the key is answered |
| `Hashmaps.Hashmap.GetBucket` | src/data_structures/hashmap/hashmap.c:142-155 | the whole chain of the key's slot, whatever key its head has |
| `Hashmaps.Hashmap.CountAtMostLog` | src/data_structures/hashmap/hashmap.c:94-111 | the occupied-slot count never exceeds the number of bindings, so fewer than 10000 bindings are never refused |
| `Linkedlists.Linkedlist.constructor` | src/data_structures/linkedlist/linkedlist.c:55-62 | an empty list |
| `Linkedlists.Linkedlist.Get` | src/data_structures/linkedlist/linkedlist.c:97-111 | the value at a position, nothing for an empty list or past the end, and a NULL dereference exactly at the length of a non-empty list, which the guard lets through |
| `Linkedlists.Linkedlist.Set` | src/data_structures/linkedlist/linkedlist.c:139-153 | replaces the value at a position and nothing else, with the same two other outcomes |
| `Linkedlists.Linkedlist.Pop` | src/data_structures/linkedlist/linkedlist.c:113-126 | takes the front value; the rest keeps its order, also when the list becomes empty and `end` is stale |
| `Linkedlists.Linkedlist.Append` | src/data_structures/linkedlist/linkedlist.c:164-181 | adds at the back; the link of the new node to itself does not survive |
| `StringUtils.HexEitherCase` | src/utils/str/string_utils.c:14-16 | hex letters are read in either case |
| `StringUtils.DecodeEscape` | src/utils/str/string_utils.c:67-71 | an escape decodes to one byte, 16 times the value of its first hex digit plus that of its second, whatever their case |
| `StringUtils.DecodeOther` | src/utils/str/string_utils.c:66-78 | a plus decodes to a space, a percent sign without two bytes after it to nothing, and any other byte to itself |
| `StringUtils.DecodeExample` | src/utils/str/string_utils.c:63-81 | the bytes of %5Bettv%5D decode to those of [ettv] |
| `StringUtils.EncodeByteWrites` | src/utils/str/string_utils.c:94-101 | how each byte is written: as itself, as a plus, or as a percent sign and its two lower-case hex digits |
| `StringUtils.UrlRoundTrip` | src/utils/str/string_utils.c:63-105 | decoding undoes encoding, for every text |
| `StringUtils.UrlEncodedInjective` | src/utils/str/string_utils.c:91-105 | different texts have different encodings |
| `StringUtils.UrlEncodedSafe` | src/utils/str/string_utils.c:91-105 | encoded text has no '&', '=', ':' or NUL and at most three bytes for each original one |
| `StringUtils.UrlDecodedShort` | src/utils/str/string_utils.c:63-81 | decoding any text writes no more bytes than it reads |
| `StringUtils.UrlEncode` | src/utils/str/string_utils.c:91-105 | the buffer loop writes the encoding and its terminator inside its buffer |
| `StringUtils.UrlDecode` | src/utils/str/string_utils.c:63-81 | the buffer loop writes the decoding and its terminator inside its buffer |
| `StringUtils.PiecesHaveNoColon` | src/utils/str/string_utils.c:34-53 | no piece of a split holds a colon |
| `StringUtils.JoinPieces` | src/utils/str/string_utils.c:34-53 | joining the pieces with colons restores the text |
| `StringUtils.PiecesOfJoin` | src/utils/str/string_utils.c:34-53 | splitting a join of colon-free texts gives those texts |
| `StringUtils.SplitMeetsDelimiter` | src/utils/str/string_utils.c:34-53 | the split is what a split at the delimiter asked for would be if and only if that is a colon or the text holds neither |
| `StringUtils.SplitIgnoresComma` | src/utils/str/string_utils.c:34-53 | a text that is not split at its comma |
| `StringUtils.Split` | src/utils/str/string_utils.c:34-53 | the list holds the pieces in order, whatever delimiter was asked for |
| `Magnet.LinkRoundTrip` | src/torrent/torrent.c:157-205 | a written list of pairs is read back if and only if no key has '=', no value but the last has '&', and the last value is not empty and has '&' at most as its last byte |
| `Magnet.LinkFits` | src/torrent/torrent.c:157-165 | pairs whose parts have at most 255 bytes never outgrow the two buffers |
| `Magnet.LinkExample` | src/torrent/torrent.c:169-205 | the bytes of xt=x&dn=y&tr=z are read as the three pairs, the last of them a tracker |
| `Magnet.WrittenLinkReads` | src/torrent/torrent.c:169-218 | a link written from a hash, a name and trackers whose encoded parts fit the buffers gives back all of them, with both lookups answered |
| `Torrents.ReadKeyByte` | src/torrent/torrent.c:171-180 | one byte in the key state keeps the machine's progress in step with the meaning of the link |
| `Torrents.ReadValueByte` | src/torrent/torrent.c:181-205 | one byte in the value state, with the pair complete exactly at '&' or the last byte |
| `Torrents.Torrent.Store` | src/torrent/torrent.c:189-199 | a pair goes to the tracker list if its key is "tr" and to the map otherwise |
| `Torrents.Torrent.ReadPairs` | src/torrent/torrent.c:163-205 | after the loop the list holds one new tracker for each "tr" value and the map's log every other pair, in order; it fails exactly if the map has no room for some pair |
| `Torrents.Torrent.CopyNames` | src/torrent/torrent.c:207-218 | name and hash are copied from the first "dn" and "xt"; a missing one is a NULL dereference, a lost one never returns |
| `Torrents.EndingOfLink` | src/torrent/torrent.c:207-218 | without a shared slot, a link is parsed to its end exactly if it has both a name and a hash, and follows a NULL otherwise |
| `Torrents.EndingStuck` | src/torrent/torrent.c:207-218 | a link in which the key qym stands before the name is never parsed to its end |
| `Torrents.Torrent.Parse` | src/torrent/torrent.c:122-239 | the outcome, the trackers, the name and the hash as functions of the file's text |
| `Torrents.Torrent.Connect` | src/torrent/torrent.c:248-269 | every tracker takes one connect, in place and apart from the others, and the count is the number that accepted |
| `Torrents.SuccessesCount` | src/torrent/torrent.c:257 | the count of connected trackers is the number of true results |
| `Torrents.Torrent.Announce` | src/torrent/torrent.c:271-284 | every tracker takes one announce with the torrent's info hash |
| `Torrents.AllTrackersSafe` | src/torrent/torrent.c:248-284 | calls on all trackers keep every session's invariant |
| `Torrents.AnnounceWritten` | src/torrent/torrent.c:122-284 | end to end: after any rounds of connects and announces to the trackers of a written link with hash text urn:btih:h, every announce any of them sent carries h and the id of its latest accepted connect |
| `Torrents.ParseWritten` | src/torrent/torrent.c:122-239 | parsing a written link gives the torrent it describes: name, hash, and each tracker's host and port in order |
| `Trackers.AddressRoundTrip` | src/tracker/tracker.c:72-84 | an encoded "udp://host:port" gives the host and the port back |
| `Trackers.InfoHashOfUrn` | src/tracker/tracker.c:217-219 | what is announced of the bytes of urn:btih: followed by a colon-free h is h |
| `Trackers.TransactionIdLaw` | src/tracker/tracker.c:311-315 | the id is the remainder of the draw on division by 1000000 |
| `Trackers.Tracker.constructor` | src/tracker/tracker.c:61-101 | host and port are the second piece without its slashes and the third piece of the decoded address; everything else starts at zero |
| `Trackers.Tracker.Connect` | src/tracker/tracker.c:130-194 | the retries as one relation: how many requests, what decides the result, which id is kept, attempts back at 0 |
| `Trackers.Tracker.Announce` | src/tracker/tracker.c:205-300 | the same for an announce, with its discarded retry result and its attempts left used up after silence |
| `Trackers.CallKeeps` | src/tracker/tracker.c:130-300 | each call keeps the session invariant and sends at most 6 minus the attempts at entry |
| `Trackers.RunIsSafe` | src/tracker/tracker.c:130-300 | over any calls and replies: attempts within bounds, connected exactly when a connect was accepted, every announce carries the id of the latest accepted connect, at most six requests a call |
| `Trackers.FirstAnswerConnects` | src/tracker/tracker.c:143-170 | a connect answered at once sends one request and succeeds exactly on action 0 with the id it sent, taking over the connection id |
| `Trackers.NoSocketNoConnect` | src/tracker/tracker.c:181-183 | a failing socket ends a connect without a request |
| `Trackers.FirstAnswerAnnounces` | src/tracker/tracker.c:215-276 | an announce answered at once sends the connection id, the draw and the hash, and succeeds exactly on action 1 with the id it sent |
| `Trackers.CallDetermined` | src/tracker/tracker.c:130-300 | the two relations decide the new state and the result completely |
| `Trackers.AnnounceTellsTruthIff` | src/tracker/tracker.c:280-290 | an announce reports the truth about the last answer if and only if the first reply was no timeout or the last one fits |
| `Trackers.RefusedAnnounceSucceeds` | src/tracker/tracker.c:280-290 | a concrete announce that is refused after a timeout and returns success |
| `Trackers.SilenceUsesAttempts` | src/tracker/tracker.c:280-290 | over any run: after an announce that met only silence, each further announce that meets silence sends one request and leaves the attempts used up, and the first call that is answered starts them anew |
| `RandUtils.Rand.RandTo` | src/utils/rand/rand_utils.c:4-9 | the first draw below (RAND_MAX / n) * n, modulo n, whenever one is still to come |
| `RandUtils.EndsIff` | src/utils/rand/rand_utils.c:4-9 | the rejection loop has a result if and only if a draw below the limit is still to come |
| `RandUtils.SmallDrawsEnd` | src/utils/rand/rand_utils.c:4-9 | one draw of at most RAND_MAX/2 is enough to end it, for every n |
| `RandUtils.RandToUnbiased` | src/utils/rand/rand_utils.c:4-9 | of the values rand() can give, exactly RAND_MAX / n make the call return each residue at once |
| `RandUtils.DrawnOnce` | src/utils/rand/rand_utils.c:11-14 | the stream of draws decides the choices of a shuffle |
| `RandUtils.ShuffledPermutes` | src/utils/rand/rand_utils.c:11-18 | a shuffle keeps the multiset of elements |
| `RandUtils.ShuffleReaches` | src/utils/rand/rand_utils.c:11-18 | every permutation is the result of some choices |
| `RandUtils.ShuffleInjective` | src/utils/rand/rand_utils.c:11-18 | on distinct elements different choices give different orders |
| `RandUtils.ShuffleBijection` | src/utils/rand/rand_utils.c:11-18 | each permutation comes from exactly one sequence of choices |
| `RandUtils.StepsShuffled` | src/utils/rand/rand_utils.c:11-18 | the swaps of the loop and the recursive shuffle agree |
| `RandUtils.ShuffleSigned` | src/utils/rand/rand_utils.c:11-18 | the array afterwards is the shuffle by the choices the next draws make |
| `RandUtils.BitsAfterSet` | src/utils/rand/rand_utils.c:27 | or-ing a shifted 1 adds exactly that bit |
| `RandUtils.ByteBitsAfterSet` | src/utils/rand/rand_utils.c:35 | the same for an int8_t, where the or is on sign-extended ints and its low byte is kept |
| `RandUtils.SetBitAdds` | src/utils/rand/rand_utils.c:27 | setting a bit that is not set adds its power of two, found by doubling |
| `RandUtils.Positions.constructor` | src/utils/rand/rand_utils.c:22-25 | the static arrays start as 0..31 and 0..7 |
| `RandUtils.Positions.NRand32` | src/utils/rand/rand_utils.c:20-29 | exactly n bits are set, the word is the sum of their powers of two, and the array is still a permutation after any history of calls |
| `RandUtils.Positions.NRand8` | src/utils/rand/rand_utils.c:31-37 | the same for eight bits; the int8_t is negative exactly when bit 7 is set |
| `RandUtils.NoSetFavoured` | src/utils/rand/rand_utils.c:20-29 | every set of n positions comes first in the shuffle for the same number of choices, so no set of bits is favoured |
| `ThreadPool.StepKeeps` | src/utils/thread_pool/thread_pool.c:33-117 | every step of every party keeps the invariant of the pool |
| `ThreadPool.ReachableInv` | src/utils/thread_pool/thread_pool.c:33-117 | the invariant holds in every reachable state |
| `ThreadPool.Conservation` | src/utils/thread_pool/thread.c:71-94 | jobs passed to add_job = in a call + submitted, and submitted = queued + in flight + executed + dropped, in every reachable state |
| `ThreadPool.MutualExclusion` | src/utils/thread_pool/thread.c:77-79 | at most one party is between lock and unlock |
| `ThreadPool.QueueGuarded` | src/utils/thread_pool/thread_pool.c:107-117 | whoever changes the queue holds the mutex; once the pool is freed only a call of add_job can do so |
| `ThreadPool.PoppedInOrder` | src/utils/thread_pool/thread.c:77-79 | jobs are popped in submission order, and the queue is what is left |
| `ThreadPool.AtMostOnce` | src/utils/thread_pool/thread.c:82-90 | a job submitted once is executed at most once and is then nowhere else |
| `ThreadPool.WorkerTakesFront` | src/utils/thread_pool/thread.c:77-86 | a critical section entered with a non-empty queue ends with exactly the front job in that worker's hands, and its next step runs it, whatever the others do meanwhile |
| `ThreadPool.Shutdown` | src/utils/thread_pool/thread_pool.c:76-105 | with all workers gone nothing is in flight; the executed jobs are a prefix of those submitted, the next ones are dropped, and the rest, appended since, stays in the queue |
| `ThreadPool.FreedIsFinal` | src/utils/thread_pool/thread_pool.c:98-104 | once the pool is freed some party can still step if and only if a call of add_job is in progress |
| `ThreadPool.LateCalls` | src/utils/thread_pool/thread_pool.c:98-117 | when the pool is freed every submitted job has been executed or dropped; a party can still step, and a job asked for was never submitted, exactly if a call was in progress at the drain lock or began after it |
| `ThreadPool.AppendAfterFree` | src/utils/thread_pool/thread_pool.c:98-117 | a run in which a call waits for the mutex during the drain and appends to the freed queue |
| `ThreadPool.StoppedWorkerExits` | src/utils/thread_pool/thread.c:47-63 | a worker whose flag is cleared takes at most five more steps of its own in any run, and has exited after them |
| `ThreadPool.NextProgresses` | src/utils/thread_pool/thread_pool.c:76-105 | the step chosen there brings the end nearer |
| `ThreadPool.CanFinish` | src/utils/thread_pool/thread_pool.c:76-105 | from every state of the invariant some steps, none of them a new call, free the pool with an empty queue, and with every call served if draining has not begun |
| `ThreadPool.DestroyCanFinish` | src/utils/thread_pool/thread_pool.c:76-105 | from every reachable state the pool can be freed with each submitted job executed or dropped, and if draining has not begun, each job asked for |
| `ThreadPoolFairness.Released` | src/utils/thread_pool/thread.c:77-79 | in every run fair to workers and callers, with the owner fair or the pool up, the mutex is free again and again |
| `ThreadPoolFairness.CallReturns` | src/utils/thread_pool/thread_pool.c:107-117 | in such a run every call of add_job returns |
| `ThreadPoolFairness.JobsExecuted` | src/utils/thread_pool/thread.c:71-94 | while a pool with workers stays up, in every run that is fair to workers and callers, every job is executed as often as it was submitted |
| `ThreadPoolFairness.SpinningIsFair` | src/utils/thread_pool/thread.c:71-94 | such runs exist: a lone worker that finds no jobs |
| `ThreadPoolFairness.FairRunFrees` | src/utils/thread_pool/thread_pool.c:76-105 | every fair run frees the pool, whatever calls begin meanwhile |

## Left out

- Sockets, DNS, files, logging and printing: I/O. What the network answers and what `rand()`
  returns are parameters.
- Packet builders and readers, and byte-order helpers: fixed offsets, easy members.
- Peers, handshakes and metadata pieces; the peers of an announce reply are not followed.
- `malloc` failures, `free` and the destroy functions: objects are garbage-collected. Storing a
  struct shares its parts with the original, as the shallow copy does.
- `pthread` details: `running` is read and written atomically, and the wait for a worker ends
  when it has exited.
- BencodeToHashmap.ToHashmap: copies a key as if its array had room for the terminator; the
  program's array is one byte short, and has no size at all for an empty key.
- Torrents.Torrent.Parse: does not cover files shorter than eight bytes, parts of a link longer
  than 255 bytes, and tracker addresses without a host and a port, for all of which the program
  leaves its buffers.
- BencodeCursor.Cursor.Validate: on what is not accepted, does not say which texts give -1 and
  which an abort or undefined behaviour.
- RandUtils.Positions.NRand32: the shuffle needs acceptable draws to keep coming, which the model
  asks of rand().
- ThreadPoolFairness.FairRunFrees: asks that a party that can move again and again moves; without
  a fair mutex the end need not come. Jobs are taken to end.
- `hex_to_int8_t`, which nothing calls; the 20 bytes an announce reads out of the info hash are
  kept as their hex text.
- The return values of `Torrent_connect` and `Torrent_announce`: always success as written.

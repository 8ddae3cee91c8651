# cs1501 fall 2016 projects: a verified Dafny model

This project models the data structures and algorithms of four course projects.

- **Password checker** (project 1).
  - A password is valid when it has five characters, the right mix of letters, digits and symbols, and no dictionary word can be read in it.
  - Reading a password substitutes certain digits for letters.
  - The dictionary is a de la Briandais trie (DLB).
  - An R-way trie over a 42-character alphabet stores passwords.
- **LZW coder** (project 2).
  - It has variable-width codewords of 9 to 16 bits.
  - Once the codebook is full it follows one of three policies: keep the full table (mode 0), reset (mode 1), or monitor the compression ratio and reset when it degrades by more than 10% (mode 2).
- **Apartment tracker** (project 3).
  - Apartment records live in indexed binary heaps.
  - One heap is ordered by lowest price, the other by largest area.
- **Airline** (project 4).
  - An undirected edge-weighted graph of routes.
  - Dijkstra's shortest paths by distance or by hop count.

Each Java class of the core becomes a Dafny `class`, with its methods proved against reference functions:

- the LZW coder (`MyLzwCoder.MyLzw`);
- `DlbTries.DLB`;
- `RWayTries.RWay`;
- `Apartments.APT`;
- `IndexedHeaps.IndexPQ`;
- `Edges.Edge`;
- `WeightedGraph.EdgeWeightedGraph`;
- `ShortestPaths.DijkstraSP`.

Pure reference definitions sit beside the classes: `LzwSpec`, `HeapOrder`, the recursive trie functions in `RWayTries`, the scan and candidate functions in `PasswordCheck`, and the search steps and the two forms of check in `ShortestPaths`. Properties are proved about those definitions: the LZW round trip, heap order, shortest paths and candidate completeness. Each Java exception is a `Failure`/`Fail` value of a `Result` or `Outcome` type (module `Wrappers`).

The files are:

- `wrappers.dfy`
- `alphabet.dfy`
- `lzw_spec.dfy`, `lzw_round_trip.dfy`, `lzw_hazard.dfy`, `my_lzw.dfy`
- `dlb.dfy`, `rway.dfy`, `pw_check.dfy`, `pw_findings.dfy`
- `apt.dfy`, `heap_order.dfy`, `index_pq.dfy`
- `edge.dfy`, `edge_weighted_graph.dfy`, `dijkstra_sp.dfy`

The LZW input and output are values rather than streams.

- The input is a sequence of bytes.
- The compressed file is a sequence of codewords.
  - Each codeword is a value paired with the width it is written at.
  - The first codeword is the 2-bit mode header.
- Expand reads a codeword at its own current width. A codeword written at another width, or a read past the end, is a read failure.

expand does not validate the mode header. A header of 3 therefore behaves like mode 0: the full table is kept.

## Model

| member | source | states |
|---|---|---|
| LzwSpec.Pow2Monotonic | project2/MyLZW.java:182-190 | The capacity L = 2^W grows with the width W, so a resize to W+1 never shrinks the codebook. |
| LzwSpec.LongestPrefixUpTo | project2/MyLZW.java:44 | The length found is a codebook key (or 0), and no longer prefix up to the bound is a key. |
| LzwSpec.LongestPrefix | project2/MyLZW.java:44 | In a codebook seeded with all 256 literals, the longest prefix of a nonempty input is a key and no longer prefix is. |
| LzwSpec.LongestPrefixUnique | project2/MyLZW.java:44 | Any length with the longest-prefix property is the one LongestPrefix picks. |
| LzwSpec.LiteralsSeeded | project2/MyLZW.java:151-159 | The reset forward codebook holds every single byte b, mapped to code b. |
| LzwSpec.LiteralMember | project2/MyLZW.java:151-159 | A string is in the reset codebook exactly when it has length 1. |
| LzwSpec.Add | project2/MyLZW.java:74-76 | Adding a phrase at the next code, or leaving a full table alone, keeps every one-byte string in the codebook. |
| LzwSpec.Next | project2/MyLZW.java:50-77 | The grow-or-reset check followed by the add keeps the codebook seeded. |
| LzwSpec.Append | project2/MyLZW.java:139-142 | Appending at the next code, or leaving a full table alone, keeps the list as long as the next code, with no empty entry but the sentinel's. |
| LzwSpec.Prepare | project2/MyLZW.java:102-126 | Expand's check, clearing the list or not, keeps it as long as the next code, with no empty entry but the sentinel's. |
| LzwRoundTrip.CheckKeepsPolicyOk | project2/MyLZW.java:51-73 | The check keeps 9 <= W <= 16 and 257 <= code <= L. It changes neither the mode nor the bit counts. A reset restores code 257 at width 9; otherwise code is kept and W never shrinks. |
| LzwRoundTrip.CheckWidth | project2/MyLZW.java:51-73 | W changes exactly when code has reached L and either W < 16 or the codebook is cleared; a widening adds one bit. |
| LzwRoundTrip.CheckFullTable | project2/MyLZW.java:53-72 | At W = 16 with a full table: mode 1 always resets. Mode 2 starts the monitor first and then resets exactly when the ratio has degraded by more than 10%. Every other mode keeps the full table. |
| LzwRoundTrip.InitialCorresponds | project2/MyLZW.java:151-173 | The reset forward and inverse codebooks map the same 256 literals to the same codes. |
| LzwRoundTrip.CheckKeepsCorrespondence | project2/MyLZW.java:51-73 | The same check run on both sides keeps the forward and inverse codebooks in step, cleared or not. |
| LzwRoundTrip.NextKeepsForwardOk | project2/MyLZW.java:50-77 | Compress's check-and-add keeps its codebook well formed and ends at the width the check chose. |
| LzwRoundTrip.NextKeepsCorrespondence | project2/MyLZW.java:50-77 | Compress's check-and-add of a new phrase and expand's check-and-add keep the codebooks corresponding. Both add the phrase only when code < L. |
| LzwRoundTrip.AddKeepsCorrespondence | project2/MyLZW.java:74-76 | Adding the same phrase on both sides keeps them corresponding; the phrase is added only when code < L. |
| LzwRoundTrip.EncodeShape | project2/MyLZW.java:43-80 | Every data codeword fits its width and is not the sentinel, and the stream ends with the sentinel. |
| LzwRoundTrip.EncodeLength | project2/MyLZW.java:43-80 | Compress writes at most one codeword per input byte plus the sentinel. It writes exactly one codeword, the sentinel, iff the input is empty. |
| LzwRoundTrip.StaticModeFreezes | project2/MyLZW.java:51-76 | In a mode other than 1 or 2, once the table is full at width 16 it stays full and every later codeword is 16 bits wide. |
| LzwRoundTrip.LastStep | project2/MyLZW.java:101-131 | After the last phrase, expand meets the sentinel. It stops with the phrase unless the check it runs first changes the width. |
| LzwRoundTrip.RoundTripFrom | project2/MyLZW.java:43-143 | From corresponding codebooks, decoding what compress writes for the rest gives the rest back, or a read failure exactly in the hazard case. |
| LzwRoundTrip.DecodeStep | project2/MyLZW.java:132-143 | A known codeword, or the code about to be assigned, decodes to its string (val + val[0] in the second case) and extends the inverse codebook. |
| LzwRoundTrip.Resolve | project2/MyLZW.java:132-142 | The codeword compress writes for the next phrase is one expand can resolve, and it resolves to that phrase. |
| LzwRoundTrip.CompressOpening | project2/MyLZW.java:39-45 | The stream starts with the 2-bit mode and then the first byte's literal code. |
| LzwRoundTrip.RoundTripEmpty | project2/MyLZW.java:39-98 | An empty input compresses to the header and the sentinel, which expands to the empty output. |
| LzwRoundTrip.RoundTrip | project2/MyLZW.java:31-146 | expand(compress(input)) gives the input back, except that it fails exactly when compress's last step leaves code at L with W < 16 (or a reset due). Then expand widens before reading a sentinel written at the old width. |
| LzwRoundTrip.CorrectedRoundTrip | project2/MyLZW.java:31-146 | With the grow-or-reset check also run after the last data codeword, expand(compress(input)) == input from width 9, for every input and every mode value 0-3. |
| LzwHazard.Run | project2/MyLZW.java:31-82 | The 256 - k bytes k, k+1, ..., 255 in increasing order. |
| LzwHazard.RunPhrase | project2/MyLZW.java:44 | With no digram of bytes >= k in the codebook, the longest prefix of Run(k) is one byte. |
| LzwHazard.RunLast | project2/MyLZW.java:43-80 | Compressing Run(k) from code 257+k ends with the table exactly full at width 9. |
| LzwHazard.HazardWitness | project2/MyLZW.java:50-80 | For the input 0,1,...,255 in every mode, the hazard holds and expand(compress(input)) fails. |
| MyLzwCoder.MyLzw.constructor | project2/MyLZW.java:24-29 | The coder starts in mode 0 with W = 9 and L = 512. |
| MyLzwCoder.MyLzw.ResizeCodeWidth | project2/MyLZW.java:182-190 | The call succeeds iff the new width is at most 16; then W is the new width and L = 2^W, otherwise both are unchanged. |
| MyLzwCoder.MyLzw.ResetCodebookCompress | project2/MyLZW.java:151-159 | The loop builds exactly the literal codebook: each byte maps to its own code. |
| MyLzwCoder.MyLzw.ResetCodebookExpand | project2/MyLZW.java:164-173 | The loop builds the literal list of 256 one-byte strings plus the unused entry for the sentinel. |
| MyLzwCoder.MyLzw.GrowOrReset | project2/MyLZW.java:51-73 | The statement block does what the reference check Check does, including its change of W. |
| MyLzwCoder.MyLzw.AddPhrase | project2/MyLZW.java:50-77 | The check followed by the put does what Next does to the codebook and the policy. |
| MyLzwCoder.MyLzw.Compress | project2/MyLZW.java:31-82 | The codewords written are CompressStream of the input from the current W, and W ends where the reference coder leaves it. |
| MyLzwCoder.MyLzw.PrepareRead | project2/MyLZW.java:102-126 | Expand's bit counting and check do what Prepare does to the inverse codebook and the policy. |
| MyLzwCoder.MyLzw.Expand | project2/MyLZW.java:84-146 | The output is ExpandStream of the codewords (so RoundTrip applies to it), and the mode becomes the header's value. |
| MyLzwCoder.MyLzw.DecodeCodewords | project2/MyLZW.java:101-144 | The main expand loop computes DecodeFrom from the state after the first codeword. |
| MyLzwCoder.MyLzw.NextEntry | project2/MyLZW.java:132-142 | The decoded string is val + val[0] for the code about to be assigned and the stored string otherwise. The inverse codebook grows as Append says. |
| MyLzwCoder.CompressStep | project2/MyLZW.java:44-78 | One pass of the compress loop appends its codeword and leaves the reference encoding of the rest. |
| MyLzwCoder.LastPhrase | project2/MyLZW.java:44-78 | When the longest prefix is the whole rest, the loop writes its code and ends with the reference state. |
| MyLzwCoder.MorePhrases | project2/MyLZW.java:44-78 | When input remains after the prefix, one pass equals the reference step, with the check and add. |
| MyLzwCoder.ReadStops | project2/MyLZW.java:128 | A codeword that cannot be read at the current width ends decoding with a read failure. |
| MyLzwCoder.SentinelStops | project2/MyLZW.java:128-131 | Reading the sentinel ends decoding with the output so far plus val. |
| MyLzwCoder.UnknownStops | project2/MyLZW.java:132-137 | A codeword that is neither known nor the next code ends decoding with an unknown-code error. |
| MyLzwCoder.DecodeGoesOn | project2/MyLZW.java:127-143 | A resolvable codeword emits val and continues from the extended codebook with the new string. |
| Alphabets.InAlphabetIsMembership | project1/dataStructures/RWay.java:30 | A character passes the class test exactly when it occurs in the alphabet string of validChars. |
| Alphabets.AlphabetOrder | project1/dataStructures/RWay.java:30 | The alphabet string lists the characters in index order: its i-th character is toChar(i). |
| Alphabets.ToIndex | project1/dataStructures/RWay.java:75 | toIndex of an alphabet character is below the radix R = 42, so it names a child slot; it is also used at RWay.java lines 100 and 224 and pw_check.java lines 207-235. |
| Alphabets.ToChar | project1/dataStructures/RWay.java:151 | toChar(i) is an alphabet character whose toIndex is i: toChar inverts toIndex. |
| Alphabets.ToIndexInjective | project1/dataStructures/RWay.java:75 | Two alphabet characters with the same toIndex are the same character, so each character has its own child slot. |
| Alphabets.ClassesByCharacter | project1/pw_check.java:207-235 | The index ranges 0-25, 26-35 and 36-41 that the scan tests are exactly the letters, the digits and the six symbols. |
| DlbTries.PrefixesAre | project1/dataStructures/DLB.java:29-40 | The strings add stores for a key are exactly its prefixes. |
| DlbTries.ChildByPath | project1/dataStructures/DLB.java:98-100 | A path extended by c is stored iff a child node of the path's node holds c, and then it names that node. |
| DlbTries.PrefixClosed | project1/dataStructures/DLB.java:29-40 | Every prefix of a stored path is stored: the trie is prefix-closed. |
| DlbTries.ExtensionStored | project1/dataStructures/DLB.java:49-58 | A stored path key+[c] implies that key itself is stored. |
| DlbTries.AppendShape | project1/dataStructures/DLB.java:126-127 | Linking one new node as a next sibling or as a first child keeps the node arena well formed. |
| DlbTries.AppendLinked | project1/dataStructures/DLB.java:126-127 | Linking a new node for a path not yet stored keeps the sibling chains and path map consistent. |
| DlbTries.SiblingIsLaterChild | project1/dataStructures/DLB.java:62-71 | A terminator node has a next sibling exactly when some child of the same node was created after it. |
| DlbTries.OnlyChild | project1/dataStructures/DLB.java:62-71 | The terminator is the only child exactly when the node has no child other than the terminator. |
| DlbTries.DLB.constructor | project1/dataStructures/DLB.java:19-21 | A new trie holds only the root, i.e. only the empty path. |
| DlbTries.DLB.GetSibling | project1/dataStructures/DLB.java:80-90 | The walk along the sibling chain returns a child holding c, or null only if no child holds c. |
| DlbTries.DLB.GetChild | project1/dataStructures/DLB.java:98-100 | The result is non-null iff path+[c] is stored, and then it is the node of that path. |
| DlbTries.DLB.Walk | project1/dataStructures/DLB.java:50-58 | Walking the characters of key reaches a node iff key is stored, and that node is key's node. |
| DlbTries.DLB.Search | project1/dataStructures/DLB.java:49-72 | 0 iff key is not a prefix of any word; 1 iff it is stored but not a word; 2 or 3 iff it is a word. 3 iff some child of key was created after its terminator. |
| DlbTries.DLB.SearchCorrected | project1/dataStructures/DLB.java:44-72 | As documented: 0, 1 and word as for search; 3 iff key is a word and also a proper prefix of another word. |
| DlbTries.DLB.AppendChild | project1/dataStructures/DLB.java:126-127 | The new node is linked in and the arena becomes Appended of the old one. |
| DlbTries.DLB.AddSibling | project1/dataStructures/DLB.java:108-130 | A node is created iff path+[c] was not stored. It is then appended and the path map extended; otherwise nothing changes. Either way the returned node is path+[c]'s. |
| DlbTries.DLB.AddChild | project1/dataStructures/DLB.java:138-146 | After the call path+[c] is stored, added iff it was new, and the stored set grows by exactly that path. |
| DlbTries.DLB.Add | project1/dataStructures/DLB.java:29-40 | added iff s was not already a word. The stored paths grow by exactly the prefixes of s+'#', and s+'#' is stored afterwards. An existing word changes nothing. |
| DlbTries.SearchAfterLongerKey | project1/dataStructures/DLB.java:62-71 | After add("ab") and add("a"), search("a") answers 2 although "a" prefixes "ab"; the corrected search answers 3. |
| DlbTries.AfterAb | project1/dataStructures/DLB.java:29-40 | After add("ab") alone, "ab" is a stored path and "a" is not a word. |
| DlbTries.NewestHasNoLaterChild | project1/dataStructures/DLB.java:66-71 | A terminator node that is the newest node has no child created after it. |
| DlbTries.ExtendedByB | project1/dataStructures/DLB.java:66-71 | Once "ab" is stored, "a" has a child other than the terminator. |
| RWayTries.Fresh | project1/dataStructures/RWay.java:37-40 | A new node is well formed and holds no value and no child. |
| RWayTries.GetNode | project1/dataStructures/RWay.java:71-77 | Following the key from depth d yields a well-formed subtrie. |
| RWayTries.PutNode | project1/dataStructures/RWay.java:92-103 | The result is a node. The count grows (second component) iff the key had no value. Lean tries (no empty subtrie) stay lean. |
| RWayTries.PutThenLookup | project1/dataStructures/RWay.java:92-103 | After put, looking up the same key gives the new value and every other key is unchanged. |
| RWayTries.BareLookup | project1/dataStructures/RWay.java:71-77 | Every lookup in a node with no value and no child finds nothing. |
| RWayTries.SetValLookup | project1/dataStructures/RWay.java:94-97 | Setting the value of the node at depth |key| changes the lookup of that key only. |
| RWayTries.SetChildLookup | project1/dataStructures/RWay.java:101 | Replacing child index changes only lookups whose next character has that index. |
| RWayTries.Prune | project1/dataStructures/RWay.java:248-253 | The subtrie is dropped exactly when it holds no value and no child. |
| RWayTries.DeleteNode | project1/dataStructures/RWay.java:237-254 | delete with the child indexed by toIndex (the corrected form). The trie stays well formed and lean. The count drops iff key had a value. key's lookup is cleared and no other lookup changes. |
| RWayTries.ClearValLookups | project1/dataStructures/RWay.java:239-242 | Clearing the value at the key's node clears exactly that key. |
| RWayTries.ClearChildLookups | project1/dataStructures/RWay.java:243-246 | A child that cleared key below clears key at this level too. |
| RWayTries.PrunedLookups | project1/dataStructures/RWay.java:248-253 | Pruning an empty cleared subtrie to null keeps every lookup. |
| RWayTries.DeleteAsWritten | project1/dataStructures/RWay.java:237-254 | The delete as written, which indexes the child array by the character code; it stays well formed when it does not fail. |
| RWayTries.DeleteAsWrittenFails | project1/dataStructures/RWay.java:244-245 | Deleting, from a non-empty trie, any key that starts with a letter throws ArrayIndexOutOfBounds: letter codes are at least 97 and there are 42 children. From an empty trie delete returns null before indexing. |
| RWayTries.DeleteAsWrittenWrongSlot | project1/dataStructures/RWay.java:244-253 | With only "7" stored (index 33), deleting "!" (code 33) reports a deletion and removes "7". |
| RWayTries.CollectInto | project1/dataStructures/RWay.java:143-156 | collect appends the keys of the subtrie, in child order, to the results. |
| RWayTries.CollectedMembers | project1/dataStructures/RWay.java:136-156 | The collected strings are exactly the keys with the given prefix that have a value. |
| RWayTries.CollectedSorted | project1/dataStructures/RWay.java:143-156 | collect yields its keys in strictly increasing alphabet order. |
| RWayTries.CollectedFromSorted | project1/dataStructures/RWay.java:150-155 | The keys from children c.. onward come out strictly increasing. |
| RWayTries.SortedConcat | project1/dataStructures/RWay.java:150-155 | Two sorted runs, all of the first below all of the second, concatenate to a sorted run. |
| RWayTries.SortedDistinct | project1/dataStructures/RWay.java:143-156 | A sorted key list has no duplicates. |
| RWayTries.BelowIrreflexive | project1/dataStructures/RWay.java:143-156 | No key precedes itself in the collect order. |
| RWayTries.BelowExtension | project1/dataStructures/RWay.java:147-149 | A node's own key precedes every key below it. |
| RWayTries.BelowAt | project1/dataStructures/RWay.java:150-155 | Keys first differing at a smaller character index come first. |
| RWayTries.GetNodeCompose | project1/dataStructures/RWay.java:136-139 | Following prefix and then the rest of a key reaches the same subtrie as following the whole key. |
| RWayTries.LongestPrefixIsLongest | project1/dataStructures/RWay.java:213-226 | Corrected test (x.val != null): the length returned is the best so far or a key prefix of the query, and no longer key prefix exists. |
| RWayTries.LongestPrefixAsWritten | project1/dataStructures/RWay.java:203-226 | As written (x.val == null): the answer is the length passed in or a depth on the query's path; RWayTries.LongestPrefixAsWrittenIsDeepestEmpty says which depth. |
| RWayTries.LongestPrefixAsWrittenIsDeepestEmpty | project1/dataStructures/RWay.java:213-226 | As written (x.val == null): the length returned is the best so far or the deepest point of the query's path whose node holds no value, and no deeper such point exists. |
| RWayTries.LongestPrefixAsWrittenExample | project1/dataStructures/RWay.java:217-219 | With only "ab" stored, the code as written answers length 1 ("a", not a key) and the corrected one answers 2. |
| RWayTries.LeanHoldsKey | project1/dataStructures/RWay.java:248-253 | A lean trie that is a node holds at least one key. |
| RWayTries.PutRepresents | project1/dataStructures/RWay.java:87-103 | put(key, v) updates the map the trie stands for to m[key := v]. |
| RWayTries.DeleteRepresents | project1/dataStructures/RWay.java:233-254 | delete(key) updates the map the trie stands for to m - {key}. |
| RWayTries.RemoveSize | project1/dataStructures/RWay.java:240 | Removing a key shrinks the map by one exactly when it was present. |
| RWayTries.RWay.constructor | project1/dataStructures/RWay.java:45 | A new trie is empty. |
| RWayTries.RWay.Get | project1/dataStructures/RWay.java:54-58 | get returns a value iff key is present, and then its value. |
| RWayTries.RWay.Contains | project1/dataStructures/RWay.java:67-69 | contains iff key is present iff get is not null. |
| RWayTries.RWay.Size | project1/dataStructures/RWay.java:108-110 | size is the number of keys. |
| RWayTries.RWay.IsEmpty | project1/dataStructures/RWay.java:116-118 | isEmpty iff there are no keys; then the root is null. |
| RWayTries.RWay.EmptyRoot | project1/dataStructures/RWay.java:95-118 | The count n is zero iff there are no keys, and then the root is null. |
| RWayTries.RWay.Put | project1/dataStructures/RWay.java:87-103 | A non-null value sets the key; null deletes it with the corrected delete (see Left out). n counts the keys afterwards. |
| RWayTries.RWay.Delete | project1/dataStructures/RWay.java:233-254 | The key is removed, nothing else changes, n drops iff it was present. This is the corrected delete; the code's `x.next[c]` is a finding. |
| RWayTries.RWay.KeysWithPrefix | project1/dataStructures/RWay.java:136-141 | Returns exactly the keys starting with prefix, sorted in alphabet order and without duplicates. |
| RWayTries.RWay.Keys | project1/dataStructures/RWay.java:126-128 | Returns exactly the keys, sorted. |
| RWayTries.RWay.LongestPrefixOf | project1/dataStructures/RWay.java:203-226 | Corrected. null iff no prefix of query is a key; otherwise the returned string is a key, a prefix of query, and no longer prefix is a key. |
| RWayTries.RWay.PrefixesAgree | project1/dataStructures/RWay.java:71-77 | Looking a query prefix up in the trie agrees with looking it up in the map the trie stands for. |
| PasswordCheck.Leet | project1/pw_check.java:213-225 | Exactly '7', '4', '0' and '3' stand for a letter, and each stands for a letter. |
| PasswordCheck.ScanTo | project1/pw_check.java:205-247 | Scanning keeps the length and the alphabet, leaves unread positions alone, and queues only in-range indices. |
| PasswordCheck.ScanCounts | project1/pw_check.java:205-247 | The counts are the numbers of letters, digits and symbols read. afterLetter holds at position 0, and after a letter followed by any run of 7, 4, 0, 3, 1. Every symbol, and any other digit read while it holds, clears it. |
| PasswordCheck.ScanSubstitutes | project1/pw_check.java:212-225 | Each read position holds its substituted character: '7','4','0','3' read while afterLetter holds (at position 0, or after a letter followed by any run of 7, 4, 0, 3, 1) become 't','a','o','e'. |
| PasswordCheck.ScanBreaks | project1/pw_check.java:205-247 | breakPts holds, in increasing order, exactly the positions of symbols other than '$' and of digits other than 7, 4, 0, 3, 1 read while afterLetter holds (at position 0, or after a letter followed by any run of 7, 4, 0, 3, 1). |
| PasswordCheck.ScanOnes | project1/pw_check.java:226-228 | oneIndex holds, in increasing order, exactly the positions of '1' read while afterLetter holds (at position 0, or after a letter followed by any run of 7, 4, 0, 3, 1). |
| PasswordCheck.ClassesPartition | project1/pw_check.java:207-246 | Every read character is a letter, a digit or a symbol, so the three counts add up to the number read. |
| PasswordCheck.CountsValidByClass | project1/pw_check.java:249-266 | The count checks accept iff the password has 1-3 letters, 1-2 digits, 1-2 symbols and fewer than 5 letters and digits. |
| PasswordCheck.StepLetter | project1/pw_check.java:207-209 | Reading a letter counts it and sets afterLetter. |
| PasswordCheck.StepDigit | project1/pw_check.java:210-234 | Reading a digit counts it. While afterLetter holds (at position 0, or after a letter followed by any run of 7, 4, 0, 3, 1) it substitutes 7/4/0/3, queues a '1', or else ends the word at a break point and clears afterLetter; otherwise nothing else happens. |
| PasswordCheck.StepSymbol | project1/pw_check.java:235-243 | Reading a symbol counts it, clears afterLetter and queues a break point unless it is '$'. |
| PasswordCheck.ReadCharacter | project1/pw_check.java:206-246 | One pass of the loop changes the counters, queues and password as one reference step does. |
| PasswordCheck.ReadPassword | project1/pw_check.java:203-247 | The loop over five characters leaves the counts, queues and substituted password of the reference scan. |
| PasswordCheck.Substrings | project1/pw_check.java:293-305 | The inner loop queues, for each end, the substring and (when a '1' is pending) its 'i' and 'l' forms. It restores the password. |
| PasswordCheck.SegmentCandidates | project1/pw_check.java:292-309 | The candidates of one segment follow the reference Segment, and each start consumes one queued '1'. |
| PasswordCheck.BreakPointCandidates | project1/pw_check.java:288-311 | One break point either skips a leading break or adds its segment's candidates. |
| PasswordCheck.GatherCandidates | project1/pw_check.java:283-312 | The generation loop builds exactly Gather over the break points, leaving the password unchanged. |
| PasswordCheck.GatherSkip | project1/pw_check.java:289-290 | A break point at 0 only moves the start past it. |
| PasswordCheck.GatherSegment | project1/pw_check.java:291-311 | A break point after the start contributes its segment's candidates, then the rest follows from the next start. |
| PasswordCheck.FromStartHas | project1/pw_check.java:293-305 | Every substring from a start k up to the break point is queued. |
| PasswordCheck.SegmentHas | project1/pw_check.java:292-309 | Every substring inside a segment is queued. |
| PasswordCheck.GatherHas | project1/pw_check.java:287-312 | Every substring inside any segment that ends at a break point is a candidate. |
| PasswordCheck.CandidatesComplete | project1/pw_check.java:287-312 | From the start of the password, every substring between consecutive break points is queued. |
| PasswordCheck.ScanQueues | project1/pw_check.java:196-247 | The scanned queues are in range, and every queued '1' position still holds '1' after substitution. |
| PasswordCheck.AppendMember | project1/pw_check.java:227-241 | Enqueueing index i when it qualifies keeps the queue increasing and equal to the qualifying indices so far. |
| PasswordCheck.LookupAsWritten | project1/pw_check.java:314-323 | As written the loop compares k with a shrinking queue size, so it finds a word iff one is among the first half of the candidates (indices m with 2m+1 < size). |
| PasswordCheck.Lookup | project1/pw_check.java:314-323 | Corrected lookup: a word is found iff some candidate is a word of the dictionary (search returns 2 or 3). |
| PasswordCheck.HasWord | project1/pw_check.java:281-325 | hasWord as written: true iff a dictionary word is among the first half of the candidates, with the password restored. |
| PasswordCheck.HasWordCorrected | project1/pw_check.java:270-325 | As documented: the segment after the last break point is also searched, and every candidate is looked up. |
| PasswordCheck.ValidatePassword | project1/pw_check.java:192-268 | A length other than 5 is rejected and the password left alone. Otherwise the password ends substituted, and it is valid iff the class counts are right and hasWord (as written) finds nothing. |
| PasswordCheck.ValidatePasswordCorrected | project1/pw_check.java:180-268 | The same with the corrected candidates and lookup: valid iff the counts are right and no candidate at all is a word. |
| PasswordCheck.CorrectedCandidatesComplete | project1/pw_check.java:270-273 | Every break-free substring of the scanned password is a corrected candidate. |
| PasswordCheck.CorrectedFindsEveryWord | project1/pw_check.java:180-191 | If the corrected check accepts, no break-free substring of the scanned password is a dictionary word. |
| PasswordCheck.GatherPrefix | project1/pw_check.java:287-312 | Adding break points at the end only appends candidates. |
| PasswordCheck.CorrectedRejectsMore | project1/pw_check.java:314-323 | Every word the code as written finds, the corrected check also finds. |
| PasswordFindings.ReadCatNine | project1/pw_check.java:205-247 | Reading "cat!9" counts 3 letters, 1 digit and 1 symbol, with one break point at 3. |
| PasswordFindings.CatSegment | project1/pw_check.java:287-312 | The candidates of "cat!9" are c, ca, cat, a, at, t. |
| PasswordFindings.Compare | project1/pw_check.java:192-268 | Runs the as-written and the corrected validation on a fresh copy of the same password. |
| PasswordFindings.CatNineOutcome | project1/pw_check.java:314-323 | With dictionary {"at"}, "cat!9" passes the counts. "at" is the 5th of 6 candidates, so the code as written does not find it, but the corrected lookup does. |
| PasswordFindings.CatNineWithAt | project1/pw_check.java:192-325 | validatePassword accepts "cat!9" with dictionary {"at"}; the corrected check rejects it. |
| PasswordFindings.ReadNineCat | project1/pw_check.java:205-247 | Reading "9!cat" gives break points 0 and 1 and no substitution. |
| PasswordFindings.NineCatNone | project1/pw_check.java:287-312 | As written, "9!cat" yields no candidates at all: "cat" follows the last break point. |
| PasswordFindings.NineCatTail | project1/pw_check.java:270-273 | The documented candidates of "9!cat" include "cat". |
| PasswordFindings.NineCatOutcome | project1/pw_check.java:192-325 | With dictionary {"cat"}, "9!cat" passes the counts. The code as written finds no word; the corrected check finds "cat". |
| PasswordFindings.NineCatWithCat | project1/pw_check.java:192-325 | validatePassword accepts "9!cat" with dictionary {"cat"}; the corrected check rejects it. |
| Apartments.APT.Empty | project3/dataStructures/APT.java:14-21 | The empty record: no address or city, all numbers 0. |
| Apartments.APT.constructor | project3/dataStructures/APT.java:33-40 | Each getter returns the value given. |
| Apartments.APT.SetPrice | project3/dataStructures/APT.java:61-63 | The price becomes p and no other field changes. |
| HeapOrder.Swap | project3/dataStructures/indexMinPQ.java:144-146 | Positions i and j are exchanged and nothing else moves. |
| HeapOrder.SwapWf | project3/dataStructures/indexMinPQ.java:143-149 | Exchanging two heap slots keeps every slot an in-range index. |
| HeapOrder.HeapParts | project3/dataStructures/indexMinPQ.java:155-173 | A heap splits at position k into the parts swim and sink maintain. |
| HeapOrder.HeapWhole | project3/dataStructures/indexMinPQ.java:155-173 | When position k is fine both upwards and downwards, the whole array is a heap again. |
| HeapOrder.SwimStep | project3/dataStructures/indexMinPQ.java:156-158 | Exchanging a k that beats its parent moves the one violation up to k/2. |
| HeapOrder.SinkStep | project3/dataStructures/indexMinPQ.java:166-171 | Exchanging k with its better child moves the violation down to that child. |
| HeapOrder.SinkStop | project3/dataStructures/indexMinPQ.java:169 | When k does not lose to its better child, the array is a heap. |
| HeapOrder.DeleteHeap | project3/dataStructures/indexMinPQ.java:121-122 | Moving the last item into a deleted slot leaves one violation, either upwards or downwards. |
| HeapOrder.InsertHeap | project3/dataStructures/indexMinPQ.java:62-65 | A new item at position N+1 is a heap but for an upward violation at N+1. |
| HeapOrder.UpdateHeap | project3/dataStructures/indexMinPQ.java:108 | Changing one key leaves one violation, up or down. |
| HeapOrder.RootLeast | project3/dataStructures/indexMinPQ.java:74-87 | In a heap the root precedes every item: the minimum (or maximum) is pq[1]. |
| HeapOrder.LinkWf | project3/dataStructures/indexMinPQ.java:18 | pq and qp being inverse makes every heap slot a valid index. |
| HeapOrder.LinkDistinct | project3/dataStructures/indexMinPQ.java:18 | No index occupies two heap slots. |
| HeapOrder.ExchLinks | project3/dataStructures/indexMinPQ.java:143-149 | exch keeps qp[pq[i]] = i and pq[qp[x]] = x, and no index enters or leaves. |
| HeapOrder.InsertLinks | project3/dataStructures/indexMinPQ.java:62-64 | Setting qp[i] = N and pq[N] = i keeps pq and qp inverse. |
| HeapOrder.DeleteLinks | project3/dataStructures/indexMinPQ.java:122-126 | Retiring the last slot and setting qp[i] = -1 keeps them inverse. |
| HeapOrder.LinkCount | project3/dataStructures/indexMinPQ.java:16-19 | Exactly N indices have qp != -1: size equals the number of stored items. |
| HeapOrder.Exchanged | project3/dataStructures/indexMinPQ.java:143-149 | The reference exch on the pair (pq, qp); its contract keeps both lengths, and ExchLinks states the rest. |
| HeapOrder.Swum | project3/dataStructures/indexMinPQ.java:155-160 | The reference swim; its contract keeps both lengths, and SwumLinks and SwumOrder state the rest. |
| HeapOrder.Sunk | project3/dataStructures/indexMinPQ.java:165-173 | The reference sink; its contract keeps both lengths, and SunkLinks and SunkOrder state the rest. |
| HeapOrder.SwumLinks | project3/dataStructures/indexMinPQ.java:155-160 | swim keeps pq and qp inverse and the set of stored indices, and leaves slots after k alone. |
| HeapOrder.SwumOrder | project3/dataStructures/indexMinPQ.java:155-160 | swim from the single violation restores the heap. |
| HeapOrder.SunkLinks | project3/dataStructures/indexMinPQ.java:165-173 | sink keeps pq and qp inverse and the stored indices, and leaves slots after N alone. |
| HeapOrder.SunkOrder | project3/dataStructures/indexMinPQ.java:165-173 | sink from the single downward violation restores the heap. |
| HeapOrder.InsertState | project3/dataStructures/indexMinPQ.java:60-67 | insert of a new index gives a heap of N+1 items with i stored. |
| HeapOrder.UpdateState | project3/dataStructures/indexMinPQ.java:106-111 | Changing a key followed by swim and sink gives a heap again with the same indices. |
| HeapOrder.DeleteSwim | project3/dataStructures/indexMinPQ.java:121-123 | After exch with the last slot and swim, the deleted index sits in slot N and at most a downward violation is left. |
| HeapOrder.DeleteSinkLinks | project3/dataStructures/indexMinPQ.java:124-126 | sink then qp[i] = -1 keeps pq and qp inverse over N-1 slots. |
| HeapOrder.DeleteState | project3/dataStructures/indexMinPQ.java:119-127 | delete gives a heap of N-1 items without i. |
| IndexedHeaps.NullsAfter | project3/dataStructures/indexMinPQ.java:125-126 | An apartment slot is null exactly when its index is not in the queue, and this survives each update. |
| IndexedHeaps.IndexPQ.constructor | project3/dataStructures/indexMinPQ.java:27-35 | An empty queue for indices 0..maxN. |
| IndexedHeaps.IndexPQ.Create | project3/dataStructures/indexMinPQ.java:27-35 | Fails with IllegalArgument iff maxN < 0, otherwise gives an empty valid queue. |
| IndexedHeaps.IndexPQ.IsEmpty | project3/dataStructures/indexMinPQ.java:40-42 | isEmpty iff no apartment is stored. |
| IndexedHeaps.IndexPQ.EmptyIff | project3/dataStructures/indexMinPQ.java:40-42 | N == 0 iff no apartment is stored. |
| IndexedHeaps.IndexPQ.Contains | project3/dataStructures/indexMinPQ.java:47-49 | ArrayIndexOutOfBounds iff i is outside 0..maxN; otherwise true iff i is stored. |
| IndexedHeaps.IndexPQ.Size | project3/dataStructures/indexMinPQ.java:53-55 | size is the number of stored apartments. |
| IndexedHeaps.IndexPQ.SizeIsCount | project3/dataStructures/indexMinPQ.java:16 | N counts the stored apartments. |
| IndexedHeaps.IndexPQ.RootFirst | project3/dataStructures/indexMinPQ.java:74-87 | pq[1] is stored and its apartment precedes every stored one. |
| IndexedHeaps.IndexPQ.TopIndex | project3/dataStructures/indexMinPQ.java:84-87 | NoSuchElement iff empty; otherwise a stored index whose apartment precedes all stored ones. |
| IndexedHeaps.IndexPQ.TopApt | project3/dataStructures/indexMinPQ.java:74-77 | NoSuchElement iff empty; otherwise a stored apartment that precedes all stored ones (lowest price or largest area). |
| IndexedHeaps.IndexPQ.AptOf | project3/dataStructures/indexMinPQ.java:95-98 | Out of range fails with ArrayIndexOutOfBounds. An absent index fails with NoSuchElement. A present one returns its apartment. |
| IndexedHeaps.IndexPQ.Worse | project3/dataStructures/indexMinPQ.java:134-136 | greater compares the apartments in slots i and j by the queue's key (price, or area in the max queue). |
| IndexedHeaps.IndexPQ.Exch | project3/dataStructures/indexMinPQ.java:143-149 | The arrays become Exchanged of the old ones. |
| IndexedHeaps.IndexPQ.Swim | project3/dataStructures/indexMinPQ.java:155-160 | The loop leaves the arrays as the reference Swum. |
| IndexedHeaps.IndexPQ.Sink | project3/dataStructures/indexMinPQ.java:165-173 | The loop leaves the arrays as the reference Sunk. |
| IndexedHeaps.IndexPQ.SmallerChild | project3/dataStructures/indexMinPQ.java:167-168 | j is the child of k that wins the comparison. |
| IndexedHeaps.IndexPQ.Insert | project3/dataStructures/indexMinPQ.java:60-67 | Errors in the code's order: i out of range, i already present (IllegalArgument), queue full. On success i maps to apt and N grows; on failure the contents are unchanged. |
| IndexedHeaps.IndexPQ.InsertAt | project3/dataStructures/indexMinPQ.java:62-66 | The insert body stores i, keeps the heap and the links, and grows N. |
| IndexedHeaps.IndexPQ.Place | project3/dataStructures/indexMinPQ.java:62-65 | The four assignments put i in slot N+1 and its apartment in place. |
| IndexedHeaps.IndexPQ.Update | project3/dataStructures/indexMinPQ.java:106-111 | Out of range or absent i fails with nothing changed; otherwise i maps to the new apartment, heap order restored. |
| IndexedHeaps.IndexPQ.UpdateAt | project3/dataStructures/indexMinPQ.java:108-110 | The update body replaces the apartment and restores heap order with the same indices. |
| IndexedHeaps.IndexPQ.Reprice | project3/dataStructures/indexMinPQ.java:108 | apts[i] = apt changes only i's apartment and key. |
| IndexedHeaps.IndexPQ.Delete | project3/dataStructures/indexMinPQ.java:119-127 | Out of range or absent i fails with nothing changed; otherwise i is removed and N drops by one. |
| IndexedHeaps.IndexPQ.DeleteAt | project3/dataStructures/indexMinPQ.java:121-126 | The delete body removes i and keeps the heap over N-1 items. |
| IndexedHeaps.IndexPQ.Shrink | project3/dataStructures/indexMinPQ.java:122 | exch(index, N--) moves the last item into the slot and drops N. |
| IndexedHeaps.IndexPQ.Resettle | project3/dataStructures/indexMinPQ.java:123-124 | swim then sink from the same slot, as the reference functions say. |
| IndexedHeaps.IndexPQ.Remove | project3/dataStructures/indexMinPQ.java:125-126 | apts[i] = null and qp[i] = -1 remove exactly i. |
| Edges.Edge.constructor | project4/dataStructures/Edge.java:28-33 | The edge holds the endpoints, distance and price given. |
| Edges.Edge.Either | project4/dataStructures/Edge.java:57-59 | either() is an endpoint, the first one given, and other() of it is the second endpoint w. |
| Edges.Edge.Other | project4/dataStructures/Edge.java:69-73 | Succeeds iff vertex is an endpoint, and then gives the other endpoint; for v it gives w. |
| Edges.Edge.CompareTo | project4/dataStructures/Edge.java:85-93 | As written: 1 iff the distance is greater and 0 iff it is smaller or equal; it never answers -1. |
| Edges.Edge.CompareToCorrected | project4/dataStructures/Edge.java:75-84 | As documented: -1, 0 or 1 iff the distance is less than, equal to or greater than the other's. |
| Edges.OtherTwice | project4/dataStructures/Edge.java:57-73 | other(other(x)) == x for both endpoints, and from either(). |
| Edges.CompareToNotAntisymmetric | project4/dataStructures/Edge.java:85-93 | For a shorter edge a, a.compareTo(b) == 0 but b.compareTo(a) == 1, so the Comparable contract fails. |
| Edges.CompareToCorrectedAntisymmetric | project4/dataStructures/Edge.java:75-84 | The corrected comparison is antisymmetric for all edges. |
| WeightedGraph.RemoveFirst | project4/dataStructures/EdgeWeightedGraph.java:102-103 | ArrayList.remove drops one occurrence if present, otherwise nothing. |
| WeightedGraph.RemoveFirstCount | project4/dataStructures/EdgeWeightedGraph.java:102-103 | The multiset loses exactly one copy of e. |
| WeightedGraph.IndexOf | project4/dataStructures/EdgeWeightedGraph.java:102-103 | The first position holding e. |
| WeightedGraph.RemoveFirstCuts | project4/dataStructures/EdgeWeightedGraph.java:102-103 | remove cuts out the first occurrence and keeps the order of the rest. |
| WeightedGraph.DegreesUpdate | project4/dataStructures/EdgeWeightedGraph.java:126-129 | Replacing one list changes the sum of degrees by the change in its length. |
| WeightedGraph.LoopsCount | project4/dataStructures/EdgeWeightedGraph.java:146-150 | The self-loop sublist of x holds the copies of e iff e is a loop at x. |
| WeightedGraph.AddCount | project4/dataStructures/EdgeWeightedGraph.java:86-87 | addEdge adds one copy of e to each endpoint's list, two to a self-loop's. |
| WeightedGraph.AddBalanced | project4/dataStructures/EdgeWeightedGraph.java:81-89 | addEdge keeps each non-loop edge equally often in both endpoint lists. |
| WeightedGraph.AddPaired | project4/dataStructures/EdgeWeightedGraph.java:81-89 | addEdge keeps the self-loop copies consecutive in pairs. |
| WeightedGraph.AddKeepsShape | project4/dataStructures/EdgeWeightedGraph.java:81-89 | addEdge keeps the adjacency lists well shaped: incident, balanced, loops paired. |
| WeightedGraph.RemoveCount | project4/dataStructures/EdgeWeightedGraph.java:102-103 | Removing a non-loop edge drops one copy at each endpoint where it occurs. |
| WeightedGraph.RemoveLoopCount | project4/dataStructures/EdgeWeightedGraph.java:102-103 | Removing a loop does not change the count of any other edge. |
| WeightedGraph.RemoveBalanced | project4/dataStructures/EdgeWeightedGraph.java:97-105 | removeEdge keeps the lists balanced. |
| WeightedGraph.RemovePaired | project4/dataStructures/EdgeWeightedGraph.java:97-105 | removeEdge keeps self-loops paired. |
| WeightedGraph.RemoveKeepsShape | project4/dataStructures/EdgeWeightedGraph.java:97-105 | removeEdge keeps the lists well shaped. |
| WeightedGraph.RemoveDegrees | project4/dataStructures/EdgeWeightedGraph.java:97-105 | The degree sum drops by 2 iff e was in the graph and is unchanged otherwise. |
| WeightedGraph.RemovalCount | project4/dataStructures/EdgeWeightedGraph.java:104 | With 2E equal to the degree sum, 2(E-1) matches the new degree sum iff e was present. 2E still matches iff e was absent, so E-- is right only for a present edge. |
| WeightedGraph.DegreesEmpty | project4/dataStructures/EdgeWeightedGraph.java:41-49 | A graph of empty lists has degree sum 0. |
| WeightedGraph.ShapedIncident | project4/dataStructures/EdgeWeightedGraph.java:114-117 | Every edge in adj[v] is incident on v and ends inside the graph. |
| WeightedGraph.AlternatePaired | project4/dataStructures/EdgeWeightedGraph.java:146-150 | Taking every other element of a paired list counts each loop exactly half as often as in the list. |
| WeightedGraph.PicksNonLoop | project4/dataStructures/EdgeWeightedGraph.java:142-145 | A non-loop edge is listed from the smaller endpoint only, as often as it occurs there. |
| WeightedGraph.PicksLoop | project4/dataStructures/EdgeWeightedGraph.java:146-150 | A self-loop is listed at its vertex on every other occurrence. |
| WeightedGraph.ListedNonLoop | project4/dataStructures/EdgeWeightedGraph.java:138-154 | Over vertices from v, a non-loop edge is listed as often as it occurs at its smaller endpoint. |
| WeightedGraph.ListedLoop | project4/dataStructures/EdgeWeightedGraph.java:138-154 | Over vertices from v, a loop is listed half as often as it occurs at its vertex. |
| WeightedGraph.ListedEdges | project4/dataStructures/EdgeWeightedGraph.java:138-154 | edges() lists each non-loop edge as often as it was added, and each loop once per pair of copies. Nothing outside the graph is listed. |
| WeightedGraph.ListedLoop0 | project4/dataStructures/EdgeWeightedGraph.java:138-154 | A loop at a vertex outside the graph is never listed. |
| WeightedGraph.ListedCovers | project4/dataStructures/EdgeWeightedGraph.java:138-154 | Every edge in any adjacency list appears in edges(). |
| WeightedGraph.EdgeWeightedGraph.constructor | project4/dataStructures/EdgeWeightedGraph.java:41-49 | V empty lists and E == 0. |
| WeightedGraph.EdgeWeightedGraph.Create | project4/dataStructures/EdgeWeightedGraph.java:41-49 | Fails with IllegalArgument iff V < 0; otherwise an empty graph with consistent counts. |
| WeightedGraph.EdgeWeightedGraph.ValidateVertex | project4/dataStructures/EdgeWeightedGraph.java:70-73 | Passes iff 0 <= v < V; otherwise IndexOutOfBounds. |
| WeightedGraph.EdgeWeightedGraph.AddEdge | project4/dataStructures/EdgeWeightedGraph.java:81-89 | Fails without change iff an endpoint is out of range. Otherwise e is appended at both ends and E grows. 2E stays equal to the degree sum. |
| WeightedGraph.EdgeWeightedGraph.RemoveEdge | project4/dataStructures/EdgeWeightedGraph.java:97-105 | As written. It fails without change iff an endpoint is out of range. Otherwise e is removed at both ends and E drops by one. E stays consistent iff e was present. |
| WeightedGraph.EdgeWeightedGraph.RemoveEdgeCorrected | project4/dataStructures/EdgeWeightedGraph.java:97-105 | E drops only when e was present, so 2E stays equal to the degree sum. |
| WeightedGraph.EdgeWeightedGraph.Adj | project4/dataStructures/EdgeWeightedGraph.java:114-117 | IndexOutOfBounds iff v out of range; otherwise the list of v, all incident on v. |
| WeightedGraph.EdgeWeightedGraph.Degree | project4/dataStructures/EdgeWeightedGraph.java:126-129 | IndexOutOfBounds iff v out of range; otherwise the length of v's list. |
| WeightedGraph.EdgeWeightedGraph.Edges | project4/dataStructures/EdgeWeightedGraph.java:138-154 | The loops build exactly ListedFrom, whose contents ListedEdges describes. |
| WeightedGraph.PickEdges | project4/dataStructures/EdgeWeightedGraph.java:141-151 | The inner loop over adj(v), with its self-loop counter, builds Picks. |
| WeightedGraph.PicksStep | project4/dataStructures/EdgeWeightedGraph.java:142-150 | One edge of the inner loop: kept if the other end is larger, or if it is a loop on an even count. |
| ShortestPaths.EdgeEnds | project4/dataStructures/DijkstraSP.java:64-65 | Every edge in adj(v) is incident on v, ends in the graph and has a nonnegative distance. |
| ShortestPaths.ImproveTarget | project4/dataStructures/DijkstraSP.java:73-83 | An edge that improves distTo[w] is not a loop and does not lead back to the source. |
| ShortestPaths.RelaxKeeps | project4/dataStructures/DijkstraSP.java:73-102 | One relax keeps the search invariant. Every vertex with a finite distance, other than the source, has a tree edge from a vertex whose distance plus the edge's weight is at most its own. The edges of finished vertices are relaxed. |
| ShortestPaths.StartKeeps | project4/dataStructures/DijkstraSP.java:53-61 | The initial distances (0 at s, infinity elsewhere) satisfy the invariant. |
| ShortestPaths.PopKeeps | project4/dataStructures/DijkstraSP.java:62-63 | delMin keeps the invariant. |
| ShortestPaths.FinishKeeps | project4/dataStructures/DijkstraSP.java:64-66 | Finishing v's adjacency list keeps the invariant. |
| ShortestPaths.MinExists | project4/dataStructures/DijkstraSP.java:63 | A nonempty queue has a vertex of least distance. |
| ShortestPaths.Lowered | project4/dataStructures/DijkstraSP.java:77-79 | A strict improvement decreases the termination measure. |
| ShortestPaths.DoneRelaxed | project4/dataStructures/DijkstraSP.java:148 | On termination every edge satisfies distTo[w] <= distTo[v] + weight. |
| ShortestPaths.DoneTight | project4/dataStructures/DijkstraSP.java:149 | On termination every tree edge is tight. |
| ShortestPaths.WalkBound | project4/dataStructures/DijkstraSP.java:147-149 | The final distance to b is at most the distance to a plus any walk's weight from a to b. |
| ShortestPaths.Shortest | project4/dataStructures/DijkstraSP.java:104-112 | distTo[x] is at most the weight of every walk from s to x: it is a shortest distance. |
| ShortestPaths.Parent | project4/dataStructures/DijkstraSP.java:132-144 | edgeTo[x] leads from a parent with a smaller distance, or an earlier one at equal distance, and is tight. |
| ShortestPaths.TreePathWalk | project4/dataStructures/DijkstraSP.java:132-144 | Following edgeTo back from x gives a walk from s whose weight is distTo[x]. |
| ShortestPaths.Reachable | project4/dataStructures/DijkstraSP.java:114-123 | distTo[x] is finite iff x is reachable from s. |
| ShortestPaths.ListedNonneg | project4/dataStructures/DijkstraSP.java:152-161 | A graph without negative edges lists none in edges(). |
| ShortestPaths.RelaxStep | project4/dataStructures/DijkstraSP.java:73-102 | After relax(e, v) the edge is relaxed from v: distTo[w] is at most distTo[v] plus the weight and has not grown. A lowered w gets edgeTo[w] = e and is queued; no other vertex changes. |
| ShortestPaths.CheckAsWritten | project4/dataStructures/DijkstraSP.java:150-246 | check as written, with each edge oriented by either(). It is a predicate with no contract of its own; ShortestPaths.CheckAsWrittenFails states what it does. |
| ShortestPaths.CheckCorrected | project4/dataStructures/DijkstraSP.java:150-246 | check with each edge oriented by other(v), as the optimality conditions mean. It is a predicate with no contract of its own; ShortestPaths.CheckCorrectedHolds states what it does. |
| ShortestPaths.CheckCorrectedHolds | project4/dataStructures/DijkstraSP.java:147-246 | The optimality check with each edge oriented by other(v) holds on every finished search. |
| ShortestPaths.CheckAsWrittenFails | project4/dataStructures/DijkstraSP.java:189-244 | For V=2, the edge (1,0,5) and s=0, the check as written (orienting by either()) returns false on the correct result. |
| ShortestPaths.CheckAsWrittenGraph | project4/dataStructures/DijkstraSP.java:81-89 | addEdge of (1,0,5) to a 2-vertex graph gives the lists [[e],[e]], a valid graph. |
| ShortestPaths.WeightCheck | project4/dataStructures/DijkstraSP.java:45-51 | Passes iff every listed edge has nonnegative distance and price, else the matching error. |
| ShortestPaths.WeightCheckGraph | project4/dataStructures/DijkstraSP.java:45-51 | Passing the check over edges() means no edge of the graph is negative. |
| ShortestPaths.DijkstraSP.Relax | project4/dataStructures/DijkstraSP.java:73-102 | relax updates distTo, edgeTo and the queue as the reference step does, in modes 1 and 3. |
| ShortestPaths.DijkstraSP.RelaxNext | project4/dataStructures/DijkstraSP.java:64-65 | Relaxing the next edge keeps the invariant and makes progress. |
| ShortestPaths.DijkstraSP.RelaxEdges | project4/dataStructures/DijkstraSP.java:64-65 | Relaxing all of adj(v) keeps the invariant. |
| ShortestPaths.DijkstraSP.DelMin | project4/dataStructures/DijkstraSP.java:63 | Removes a vertex of least distance from the queue. |
| ShortestPaths.DijkstraSP.Run | project4/dataStructures/DijkstraSP.java:62-66 | The main loop terminates with the search finished (Done), so Shortest and Reachable apply. |
| ShortestPaths.DijkstraSP.constructor | project4/dataStructures/DijkstraSP.java:42-70 | For a nonnegative graph and valid s, a finished search from s. The final `assert check(G, s)` is omitted (see Left out). |
| ShortestPaths.DijkstraSP.Create | project4/dataStructures/DijkstraSP.java:42-70 | Fails with the weight error iff an edge is negative. Otherwise it fails with ArrayIndexOutOfBounds iff s is out of range, and else builds the search. The AssertionError of `assert check(G, s)` under -ea is not modelled (see Left out). |
| ShortestPaths.DijkstraSP.DistTo | project4/dataStructures/DijkstraSP.java:110-112 | ArrayIndexOutOfBounds iff v is out of range; otherwise distTo[v]. |
| ShortestPaths.DijkstraSP.HasPathTo | project4/dataStructures/DijkstraSP.java:121-123 | Out of range fails; otherwise true iff distTo[v] is finite, i.e. iff v is reachable. |
| ShortestPaths.DijkstraSP.PathTo | project4/dataStructures/DijkstraSP.java:132-144 | Out of range fails. null iff v is unreachable. Otherwise a walk from s to v whose weight is distTo[v], hence a shortest path. |

## Left out

- The bit-level I/O of MyLZW (BinaryStdIn/BinaryStdOut) and its `main` are left out. The compressed file is a sequence of codewords with their widths, and reading one at the wrong width is an error value.
- The TST and ArrayList codebooks of MyLZW become a map and a sequence. The TST implementation is not part of this model.
- The mode-2 ratio test is in floating point in the source. The model takes lastRatio / currentRatio > 1.1 as the exact comparison 10·lastIn·outBits > 11·lastOut·inBits, so float rounding is not modelled.
- MyLzwCoder.MyLzw: the bit counters inBits and outBits (MyLZW.java:47-48, 101-102) are Java ints that overflow past 2^31 - 1; the model's counters are unbounded, which only differs for inputs of more than 2^31 bits.
- MyLzwCoder.MyLzw.Compress and Expand start from the class's current width W, as the static field does, rather than resetting it.
- MyLzwCoder.MyLzw.Expand: expand does not validate the mode header, and a header of 3 acts like mode 0. The model follows the code.
- PasswordCheck.ValidatePassword requires a password of length 5 to use only the 42 characters of the alphabet. Of the Alphabet class only toIndex and toChar are modelled, on the 42 characters; the other characters have no index in the model. So the invalid-character branch (pw_check.java:244-246) is not modelled.
- Queue, Stack and StringBuilder are not part of this model. They become sequences and arrays of characters.
- The DLB dictionary is passed to PasswordCheck.ValidatePassword as a parameter instead of the static field.
- Reading dictionary.txt, genPasswords, storePass, the R-way tree of passwords with their timings, and the rest of pw_check's I/O are left out.
- PasswordCheck.HasWord relies on every queued '1' still being a '1' in the password (OnesAt). ValidatePassword establishes this (ScanQueues), and it is the only caller.
- DlbTries.DLB stores its nodes in an arena of parallel sequences (value, sibling, child, parent) instead of linked objects, so the model does not capture aliasing of nodes.
- DlbTries.DLB.AddSibling: the null branch of addSibling (DLB.java:109-111) is never reached from addChild and is not modelled. Its ghost parent parameter is only for the proof.
- RWayTries.RWay.Put: the null branch (RWay.java:88) calls the corrected delete, RWay.Delete. The code calls delete as written, which, on a non-empty trie, throws ArrayIndexOutOfBoundsException for a key starting with a letter and can clear the wrong slot (put("!", null) with only "7" stored removes "7"); that behaviour is stated only by RWayTries.DeleteAsWrittenFails and RWayTries.DeleteAsWrittenWrongSlot.
- RWayTries: trie nodes are immutable values built and rebuilt by functions and methods, not shared objects updated in place. keysThatMatch (RWay.java:165-193) is left out.
- The getters of Apartments.APT have no contracts of their own; the constructors and SetPrice are stated through them.
- IndexedHeaps.IndexPQ.Insert: when the queue is full, Java runs N++ and writes qp[i] = N before pq[N] throws ArrayIndexOutOfBounds, so afterwards size() is maxN + 1 and contains(i) is true. The model fails without changing anything.
- IndexedHeaps.IndexPQ: the queue reads each apartment's key when it is inserted or updated. Changing an APT while it is in a queue without calling update is not modelled, and neither is the int overflow of maxN + 1.
- indexMaxPQ.java is the same class as indexMinPQ.java with the comparison on area reversed. IndexedHeaps.IndexPQ models both through its Order parameter (LowestPrice or LargestArea).
- The double-valued price weight of Edge is modelled as a real and used only in the negative-weight check.
- ShortestPaths.DijkstraSP.constructor: mode 2 (shortest paths by double price) is not modelled, and nor are other mode values, for which relax does nothing. Only modes 1 (distance) and 3 (hops) are modelled. distTo is a whole number or infinity instead of a double.
- ShortestPaths.DijkstraSP.constructor: the final `assert check(G, s)` (DijkstraSP.java:69) is omitted. It has no effect unless Java runs with assertions enabled (-ea); then it throws AssertionError whenever check returns false, e.g. on the graph of ShortestPaths.CheckAsWrittenFails.
- ShortestPaths.DijkstraSP.Create: for the same reason its success case does not include the AssertionError that `assert check(G, s)` raises under -ea when check is false; it assumes assertions are disabled, Java's default.
- The IndexMinPQ<Double> of DijkstraSP is modelled as a set of vertices with a delete-minimum. The System.err messages of check are left out.
- The toString methods of Edge and EdgeWeightedGraph are left out; they only format text.
- AptTracker.java and Airline.java are menus and file readers around these classes. They are not part of this model.

## Findings

| source | as written | input that shows it | evidently intended | confidence | as-written member | corrected member |
|---|---|---|---|---|---|---|
| project2/MyLZW.java:50-80 | compress runs the grow-or-reset check only before adding a phrase, i.e. not after the last codeword, and writes the sentinel at the old W. expand runs the check after every codeword and reads the sentinel at the new W. | the 256 bytes 0,1,...,255 in increasing order, any mode: the table fills with the last phrase, so expand widens to 10 bits and misreads the 9-bit sentinel | expand(compress(x)) == x for every input | not executed | LzwHazard.HazardWitness | LzwRoundTrip.CorrectedRoundTrip |
| project4/dataStructures/Edge.java:85-93 | the second test repeats `this.dist > that.dist`, so compareTo never returns -1 | edges of distance 1 and 2: a.compareTo(b) == 0 but b.compareTo(a) == 1 | -1, 0, 1 for less, equal, greater | not executed | Edges.CompareToNotAntisymmetric | Edges.CompareToCorrectedAntisymmetric |
| project4/dataStructures/EdgeWeightedGraph.java:97-105 | removeEdge decrements E even when the edge was not in the graph | removing an edge never added leaves E one below the true count | E counts the edges | not executed | WeightedGraph.EdgeWeightedGraph.RemoveEdge | WeightedGraph.EdgeWeightedGraph.RemoveEdgeCorrected |
| project4/dataStructures/DijkstraSP.java:189-244 | check orients each edge by either() instead of by the vertex whose list it is in | V=2, edge (1,0,5), s=0: the correct distances fail the tree-edge test | the optimality conditions hold for the computed result; the visible effect is that the constructor's `assert check(G, s)` throws AssertionError under java -ea, while without -ea the false result is never observed | not executed | ShortestPaths.CheckAsWrittenFails | ShortestPaths.CheckCorrectedHolds |
| project1/dataStructures/RWay.java:217 | the prefix length is recorded where `x.val == null` instead of `!= null` | only "ab" stored, longestPrefixOf("ab") gives "a", which is not a key | the longest prefix of query that is a key | not executed | RWayTries.LongestPrefixAsWrittenExample | RWayTries.RWay.LongestPrefixOf |
| project1/dataStructures/RWay.java:245 | delete indexes the 42 children by the character code `x.next[c]` instead of toIndex(c) | delete("a") throws; with only "7" stored, delete("!") removes "7" | delete removes exactly key | not executed | RWayTries.DeleteAsWrittenWrongSlot | RWayTries.RWay.Delete |
| project1/dataStructures/DLB.java:66-71 | search answers 3 only if the terminator node has a next sibling, which holds only for children created after it | add("ab"), add("a"), search("a") gives 2 | 3 for a word that is also a prefix of another | not executed | DlbTries.SearchAfterLongerKey | DlbTries.DLB.SearchCorrected |
| project1/pw_check.java:314-323 | the lookup loop compares k with check.size()-1 while dequeuing, so only the first half of the candidates is looked up | "cat!9" with dictionary {"at"} is accepted | every candidate is looked up | not executed | PasswordFindings.CatNineWithAt | PasswordCheck.Lookup |
| project1/pw_check.java:287-312 | candidates are generated only up to the last break point, although lines 272-273 say the piece after it, up to index 4, is also searched | "9!cat" with dictionary {"cat"} is accepted | candidates also after the last break point | not executed | PasswordFindings.NineCatWithCat | PasswordCheck.ValidatePasswordCorrected |

# SuperUnicode engines: a verified model

The repository holds freestanding C engines for the SuperUnicode codepoint space. This project models
five of them in Dafny and proves what their code does, for every input and every run.

* **The volume index** (`compat/vip/univip_fvip.c`): 128 entry slots joined to a trie of 11 levels over a
  pool of 512 nodes with a last-in-first-out free stack, keyed by a 44-bit FNV-1a hash of the path; and
  the SUTF-8 codec that checks paths.
  `PathTrie`, `PathTrieUndo`, `PathTrieCapacity`, `ExclusiveOr`, `PathKey`, `Sutf8`, `Sutf8Layout`, `VolumeTable`,
  `VolumeRefinement`, `VolumeRuns`, `CollidingPaths`, `VolumePaths`, `CrowdedPaths`, `VolumeFull`, `VolumeClogged`,
  `VolumeIndex`.
* **The bidirectional engine** (`src/suas/suas_sdf.c`): the explicit-level stack machine, the weak, neutral
  and implicit phases, reordering, mirroring, the whole paragraph, and the separate streaming framer.
  `BidiTypes`, `ExplicitLevels`, `Embeddings`, `WeakTypes`, `WeakRules`, `NeutralTypes`, `NeutralRules`,
  `PairTables`, `Reorder`, `Paragraph`, `Framer`.
* **The manifest reader** (`src/suas/suas_scms.c`): field decoders, record and directive grammar, range and
  plane tests, and the streaming state folded over lines.
  `ManifestRanges`, `ManifestFields`, `ManifestDigits`, `ManifestRecords`, `ManifestDirectives`, `ManifestReader`,
  `ManifestVerdicts`.
* **The open-addressing index** that `src/suas/suas_sip.c` and `src/suas/suas_sncs.c` both build, once, for
  any keys, hash and table: `ProbeIndex`.
* **The line-break engine** (`src/suas/suas_sbr.c`): `LineBreak`, `LineBreakRules`.

`Options` holds one shared datatype. `dafny verify dfyconfig.toml` checks everything.

## How the model is laid out

Code that changes arrays or fields in place is a method or a class over arrays and fields with the same
names of operations, and each such method is proved equal to a function on the values before the call.
The theorems are lemmas about those functions, so they hold of the methods. Loops that scan are loops.
What each step does to each kind of input is stated once more without the functions, over runs, traces, kept
neighbours, fields and bytes (`Embeddings`, `WeakRules`, `NeutralRules`, `LineBreakRules`, `ManifestDigits`,
`ManifestVerdicts`, `Sutf8Layout`).

Conventions: the child bitmap of a trie node is the set of its bits; a masked comparison of a byte is
written with division and remainder; plane masks and direction flags are sets of bits; C strings are
sequences without a zero byte, or memory with a terminator where reading past it matters; integers are
unbounded except where the width matters (the 32-bit manifest counters, the 31-bit codepoint field of a
framed word, 8-bit levels, which are proved to stay below 127, and 64-bit hashes); `nat -> Class`,
`nat -> set<Flag>` and `K -> nat` parameters stand for Unicode tables and hashes.

In the trie lemmas `at` maps the path of every node to its index in the pool, and `Shape(t, at)` says that
it does so exactly: one parent for each node but the root, children where the bitmap says, a free stack of
distinct blank nodes. `ShapeUnique` shows that a pool has at most one such map.

## Where the code differs from what is said about it

* The index compares hashes only, although a comment on lookup says that the path is verified
  (`compat/vip/univip_fvip.c:772`). The refined map is therefore keyed by the hash. Lookup returns an entry of
  another path, insertion refuses a new path as a duplicate, and removal deletes another path's entry, each
  exactly when a live entry has another path with the same hash (`VolumePaths.LookupFindsOther`,
  `InsertRefusesNew`, `RemoveTakesOther`). A run is a run on a map from paths exactly when no operation of it
  meets such an entry (`VolumePaths.RunIsPathRun`). The paths `mv8c8c` and `p0vtji` have the same hash, and
  `VolumePaths.CollisionReached` gives the run in which removing the second deletes the entry of the first.
* An insertion that exhausts the pool leaves its partial chain behind; inserting and removing a path then
  restores the free stack exactly when the walk for the path does not end at such a dead end
  (`PathTrieUndo.CreateThenPrune`, an if-and-only-if). `VolumeFull.DeadEndReached` gives runs that reach one.
* The pool is smaller than the table. As long as the pool has not been exhausted before, 49 live entries always
  fit: the first insertion that exhausts the pool is made with at least 49 (`VolumeRuns.FirstExhaustion`), and 49
  is enough: the fifty paths of `VolumeFull.FiftiethCanFail`, one to four letters `a` and one more character, are
  inserted one after the other, the count never passes 49, and the last insertion is refused. After an exhaustion
  no such number holds, since its garbage stays: the run of `VolumeClogged.RefusedAtTwentySix` is refused 27
  insertions, the last one with 26 live entries. `PathTrie.WalkCreateNeeds` gives the exact condition for a single
  insertion, and `VolumeClogged.InsertTakes` the exact number of nodes it takes.
* The reorder loop ascends although its comment says "from highest down"
  (`src/suas/suas_sdf.c:923-924`). What it stores is the inverse of rule L2 of section 3.4 of UAX #9: where
  each character goes, not which character goes where (`VisualMapInvertsL2`). Two digits before a Hebrew letter
  tell the two apart (`VisualMapIsNotL2`); in paragraphs without controls they agree exactly when the reversal
  at level 1 mirrors all neighbours on level 2 (`PlainVisualOrder`). In a
  right-to-left paragraph it leaves out the reversal at level 1, and is then the inverse of rule L2 exactly
  when of any two neighbouring characters of the text one is an embedding control or PDF
  (`Paragraph.RightToLeftText`); two Hebrew letters are left unswapped (`Paragraph.TwoLettersStay`).
* Rule L1 never applies: the loop looks at resolved classes (`TrailingSpaceKeepsItsLevel`). White space or a
  separator at the end is on the paragraph level exactly when it is a paragraph separator or no embedding,
  override or isolate is open there (`Paragraph.LastSpaceLevel`); after U+202B a space stays on the level of
  the embedding (`Paragraph.SpaceStaysRaised`).
* The engine's rules depart from UAX #9: FSI looks ahead to the end of the paragraph, the first strong
  character of a paragraph is looked for inside isolates too, there is no start or end of a level run in the
  weak and neutral rules, European numbers are not strong in rule N1, a removed character splits a run of
  neutrals, and brackets are matched with the nearest closing bracket. The functions model the code.
* One-shot framing does not notice an error at the last codepoint (`Framer.LastErrorSwallowed`, `Framer.LonePop`).
* No codepoint outside the Unicode zone takes the direction of the isolate it stands in
  (`Framer.NativeIsUndirected`), although the header says that native ones inherit it
  (`include/suas/suas_sdf.h:112`, `src/suas/suas_sdf.c:115-117`).
* A manifest record may end with one tab after its sixth column, although a comment says that a trailing tab
  is rejected (`src/suas/suas_scms.c:214-216`, `ManifestRecords.GrammarExact`); `ManifestRecords.TabAccepted` is
  such a line.
* The header of the manifest reader says that a manifest without a `%planes` directive never passes the plane
  check. It passes exactly when it has no accepted record (`ManifestReader.UndeclaredPlanes`), for instance when it
  is the header line alone (`ManifestReader.HeaderAlone`).
* The native-word test masks the high byte of a codepoint that has none, so its second half always holds
  (`src/suas/suas_sbr.c:132-141`).

## Model

| member | source | states |
|---|---|---|
| PathTrie.InitShape | compat/vip/univip_fvip.c:238-249 | the initial pool is an empty tree with all 512 nodes on the free stack, in the order that hands out node 0 first and node 511 last |
| PathTrie.AllocThenFree | compat/vip/univip_fvip.c:252-274 | whatever the pool holds, the node on top of the stack is handed out blank, and giving it back puts it on top again |
| PathTrie.FreeThenAlloc | compat/vip/univip_fvip.c:252-274 | a node that is given back is blank and is handed out next; an index outside the pool is ignored |
| PathTrie.WalkNamed | compat/vip/univip_fvip.c:278-305 | the walk for a key ends at the node of that path if the tree has one, and nowhere otherwise |
| PathTrie.ShapeUnique | compat/vip/univip_fvip.c:238-397 | the pool determines the tree that can be reached from its root |
| PathTrie.WalkCreateShape | compat/vip/univip_fvip.c:310-352 | the creating walk keeps the pool well shaped and adds only prefixes of the key, even when it fails halfway |
| PathTrie.WalkCreateNeeds | compat/vip/univip_fvip.c:310-352 | it succeeds exactly when the free stack holds the nodes that the path lacks |
| PathTrie.PruneShape | compat/vip/univip_fvip.c:356-397 | pruning a dead leaf keeps the pool well shaped, drops the leaf and only prefixes of the key, and makes no other node a dead end |
| PathTrieUndo.CreateThenPrune | compat/vip/univip_fvip.c:252-397 | creating a path and pruning it restores the tree and the free stack with its order, exactly when the walk did not stop at a dead end |
| PathTrieCapacity.PoolPartition | compat/vip/univip_fvip.c:238-397 | every node is reachable from the root or on the free stack, never both |
| PathTrieCapacity.NodesNeeded | compat/vip/univip_fvip.c:310-352 | n keys need at most 1 + 16 + 10 n nodes |
| PathTrieCapacity.RoomForOneMore | compat/vip/univip_fvip.c:252-352 | a garbage-free trie of at most 48 keys has the nodes for any further key |
| PathTrieCapacity.AtMostFortyNineHeads | compat/vip/univip_fvip.c:252-352 | the bound is sharp: with all first nibbles in use, 50 different heads never fit |
| ExclusiveOr.XorIsVectorXor | compat/vip/univip_fvip.c:66-74 | the exclusive or that the hash uses, bit by bit on numbers, is the operator on eight-bit vectors |
| PathKey.HashBytes | compat/vip/univip_fvip.c:66-74 | the hash loop computes 64-bit FNV-1a cut to 44 bits |
| PathKey.KeyPathIsNibbles | compat/vip/univip_fvip.c:222-224 | shifting and masking by level cuts a key into its nibbles, the most significant first |
| PathKey.KeyPathInjective | compat/vip/univip_fvip.c:222-224 | different 44-bit keys take different paths |
| Sutf8.DecodeChar | compat/vip/univip_fvip.c:114-170 | the decoder loop computes the decoding function while it reads nothing past the size or the terminator |
| Sutf8.DecodeIsCanonical | compat/vip/univip_fvip.c:83-170 | it accepts a length and codepoint exactly when the bytes begin with the canonical encoding of that valid codepoint |
| Sutf8.DecodeRejects | compat/vip/univip_fvip.c:83-170 | it rejects exactly when no valid codepoint's encoding fits there |
| Sutf8.DecodeStopsAtTerminator | compat/vip/univip_fvip.c:114-170 | bytes after a terminator make no difference |
| Sutf8.ParseEncodes | compat/vip/univip_fvip.c:172-215 | a well-formed string is the encoding of its parse |
| Sutf8.EncodeAllParses | compat/vip/univip_fvip.c:172-215 | encoding any valid codepoints gives a well-formed string that parses back to them, and the count is their number |
| Sutf8.WellFormedIffEncoded | compat/vip/univip_fvip.c:172-215 | the count succeeds with n exactly for the encodings of n valid codepoints |
| Sutf8.CountConcat | compat/vip/univip_fvip.c:190-215 | the count is additive over concatenation |
| Sutf8.CountInMemory | compat/vip/univip_fvip.c:190-215 | the counting loop over a terminated string computes the count of the bytes before the terminator |
| Sutf8.IsSutf8InMemory | compat/vip/univip_fvip.c:172-188 | the checking loop succeeds exactly when the count does |
| Sutf8Layout.ValidExactly | compat/vip/univip_fvip.c:83-94 | valid codepoints are those below 0x7FFFFFF0 |
| Sutf8Layout.EncodedLength | compat/vip/univip_fvip.c:96-112 | how many bytes each codepoint takes, with the step from four to five at U+110000 |
| Sutf8Layout.EncodedBytes | compat/vip/univip_fvip.c:114-170 | each byte of an encoding written out: the announcement and the highest bits first, then six bits a byte |
| Sutf8Layout.DecodedBytes | compat/vip/univip_fvip.c:114-170 | whatever the decoder accepts was written so |
| VolumeTable.InitInv | compat/vip/univip_fvip.c:409-425 | a new volume index satisfies the invariant with an empty tree |
| VolumeTable.WalkFindsEntry | compat/vip/univip_fvip.c:762-778 | the walk for a hash ends at the slot of the one entry with that hash, or there is none |
| VolumeTable.DistinctHashes | compat/vip/univip_fvip.c:686-697 | no two occupied entries have the same hash |
| VolumeTable.VerdictIs | compat/vip/univip_fvip.c:842-925 | the integrity verdict on tables of any content: good exactly when every entry records its own path, its hash and its number of characters, the counts agree and no link leaves the pool |
| VolumeRefinement.InsertInv | compat/vip/univip_fvip.c:648-731 | every insertion, failed ones included, keeps the invariant; only success and exhaustion change anything |
| VolumeRefinement.RemoveInv | compat/vip/univip_fvip.c:785-836 | every removal keeps the invariant, drops only prefixes of its key and makes no node a dead end |
| VolumeRefinement.InsertRefines | compat/vip/univip_fvip.c:648-731 | insertion is insertion into a map from hashes to entries, with the same reply; exhaustion leaves the map alone |
| VolumeRefinement.LookupRefines | compat/vip/univip_fvip.c:737-779 | lookup returns the binding of the hash or reports that there is none |
| VolumeRefinement.RemoveRefines | compat/vip/univip_fvip.c:785-836 | removal deletes exactly the binding of the hash |
| VolumeRefinement.VerifyPasses | compat/vip/univip_fvip.c:842-925 | every table with the invariant passes the integrity check |
| VolumeRefinement.RunRefines | compat/vip/univip_fvip.c:648-925 | every run of insert, lookup, remove and verify replies what the same run on a map replies, and ends in that map |
| VolumeRuns.RunIsMapRun | compat/vip/univip_fvip.c:409-925 | every run from the initial table is the same run on an empty map, reply by reply |
| VolumeRuns.NeverCorrupt | compat/vip/univip_fvip.c:767-925 | in no run from the initial table is a corruption code returned, and every integrity check passes |
| VolumeRuns.StepTells | compat/vip/univip_fvip.c:648-836 | success adds a binding that holds what was given, finds or deletes exactly one; every other reply leaves the map as it was |
| VolumeRuns.InsertThenLookup | compat/vip/univip_fvip.c:648-779 | after a successful insertion, looking the path up gives an entry with the path, the sector offset, the flags, the number of characters that the path encodes, its hash and no times |
| VolumeRuns.InsertRefused | compat/vip/univip_fvip.c:648-697 | which insertions are refused before nodes are asked for, and with which reply: by length, encoding, full table and known hash, in this order |
| VolumeRuns.NotFoundExactly | compat/vip/univip_fvip.c:737-836 | when lookup and removal fail and with which reply |
| VolumeRuns.ReachablePool | compat/vip/univip_fvip.c:238-397 | after any run: free and allocated counts add up to 512, allocated is reachable, the free stack holds the rest, the leaves are the entries |
| VolumeRuns.InsertClean | compat/vip/univip_fvip.c:648-731 | in a table without garbage an insertion exhausts the pool only with at least 49 live entries and for a new key, and otherwise leaves no garbage |
| VolumeRuns.FirstExhaustion | compat/vip/univip_fvip.c:648-836 | in every run from the initial table, the first reply of pool exhaustion is to an insertion of a new key made with at least 49 live entries |
| VolumeRuns.PoolNeverExhausted | compat/vip/univip_fvip.c:648-836 | so no reply is pool exhaustion when each insertion that asks for nodes starts with at most 48 live entries, whatever else the run does |
| VolumeFull.NoRoomForHead | compat/vip/univip_fvip.c:252-352 | with all first nibbles and 49 heads in use, no key with another head fits |
| VolumeFull.FiftiethExhausts | compat/vip/univip_fvip.c:648-731 | any fifty paths with different two-nibble heads, all first nibbles among the first 49: 49 insertions into a new index succeed and the fiftieth exhausts the pool, the count never passing 49 |
| VolumeFull.DeadEndReached | compat/vip/univip_fvip.c:310-397 | after that run and the removal of any of the first 49, inserting and removing the refused path restores the entries and counts but not the pool |
| VolumeFull.FiftyPathsCrowd | compat/vip/univip_fvip.c:66-74 | the FNV-1a keys of fifty given paths of two to five characters meet these conditions |
| VolumeFull.FiftiethCanFail | compat/vip/univip_fvip.c:648-836 | hence a concrete run that exhausts the pool at 49 entries, and one that reaches a table with a dead end |
| CrowdedPaths.CrowdHead | compat/vip/univip_fvip.c:66-74 | the first three nibbles of the keys of 96 paths: one of six beginnings and one more character |
| CrowdedPaths.HeadsDiffer | compat/vip/univip_fvip.c:66-74 | the first two nibbles of the first 64 of them are all different |
| VolumeClogged.InsertTakes | compat/vip/univip_fvip.c:648-731 | inserting a new path takes exactly one node for each prefix of its key that the tree lacks; with too few left it takes all of them and is refused |
| VolumeClogged.RemoveMate | compat/vip/univip_fvip.c:785-836 | with the pool exhausted, removing an entry whose head another entry shares gives back nine nodes at most |
| VolumeClogged.ExhaustedAgain | compat/vip/univip_fvip.c:648-836 | any 79 paths of which 26 share their heads pairwise with 26 others and 27 have heads of their own: 52 insertions into a new index succeed, then insertions are refused at 52 live entries and, after each removal, at one less, down to 26 |
| VolumeClogged.ClogPathsClog | compat/vip/univip_fvip.c:66-74 | the FNV-1a keys of 79 given paths meet these conditions |
| VolumeClogged.RefusedAtTwentySix | compat/vip/univip_fvip.c:648-836 | hence a concrete run of 105 calls whose last insertion exhausts the pool with 26 live entries |
| VolumePaths.LookupFindsOther | compat/vip/univip_fvip.c:762-778 | lookup returns an entry of another path exactly when there is one with the same hash |
| VolumePaths.InsertRefusesNew | compat/vip/univip_fvip.c:686-697 | insertion refuses a path that no entry has as a duplicate exactly when it gets that far and another path has its hash |
| VolumePaths.RemoveTakesOther | compat/vip/univip_fvip.c:785-836 | removal succeeds for a path that no entry has exactly when another path has its hash |
| VolumePaths.RemoveTakesHash | compat/vip/univip_fvip.c:785-836 | what a successful removal deletes is the path with that hash and nothing else |
| VolumePaths.StepIsPathStep | compat/vip/univip_fvip.c:648-925 | a call replies what it would reply on a map from paths exactly when it does not meet another path with the same hash |
| VolumePaths.RunIsPathRun | compat/vip/univip_fvip.c:409-925 | a run from the initial table replies what the same run on an empty map from paths replies exactly when no call meets another path with the same hash, and then ends in the same map |
| VolumePaths.NoCollisionNeverMisled | compat/vip/univip_fvip.c:409-925 | no call of a run over paths without a common hash does |
| VolumePaths.LookupFindsPath | compat/vip/univip_fvip.c:737-779 | in any run a successful lookup returns an entry of the path that was asked for exactly when it does not meet another path with the same hash |
| CollidingPaths.Collision | compat/vip/univip_fvip.c:66-74 | two acceptable paths of six characters with the same 44-bit hash |
| VolumePaths.CollidingRun | compat/vip/univip_fvip.c:648-836 | for any two paths with one hash: looking the second up returns the entry of the first, inserting it is refused, removing it removes the first |
| VolumePaths.CollisionReached | compat/vip/univip_fvip.c:648-836 | that run with two given paths |
| VolumeRuns.InsertThenRemove | compat/vip/univip_fvip.c:648-836 | inserting an absent path and removing it restores the entries and counts always, and the pool with the order of the free stack exactly when the walk met no dead end |
| VolumeRuns.CleanInsertThenRemove | compat/vip/univip_fvip.c:648-836 | in a garbage-free table it restores everything |
| VolumeIndex.FileIndex.constructor | compat/vip/univip_fvip.c:238-249 | the in-memory index starts as the initial table |
| VolumeIndex.FileIndex.NodeAlloc | compat/vip/univip_fvip.c:252-263 | pops the free stack and blanks the node, or reports none |
| VolumeIndex.FileIndex.NodeFree | compat/vip/univip_fvip.c:266-274 | blanks the node and pushes it |
| VolumeIndex.FileIndex.WalkReadOnly | compat/vip/univip_fvip.c:278-305 | the loop computes the walk function |
| VolumeIndex.FileIndex.WalkCreating | compat/vip/univip_fvip.c:310-352 | the loop computes the creating walk, failure in the middle included |
| VolumeIndex.FileIndex.PrunePath | compat/vip/univip_fvip.c:356-397 | the collecting walk and the bottom-up pass compute pruning |
| VolumeIndex.FileIndex.InsertEntry | compat/vip/univip_fvip.c:648-731 | in place, computes the insertion that the lemmas are about, replies included |
| VolumeIndex.FileIndex.LookupEntry | compat/vip/univip_fvip.c:737-779 | computes the lookup and changes nothing |
| VolumeIndex.FileIndex.RemoveEntry | compat/vip/univip_fvip.c:785-836 | in place, computes the removal, replies included |
| VolumeIndex.FileIndex.VerifyIntegrity | compat/vip/univip_fvip.c:842-925 | the loops compute the integrity verdict, for tables of any content |
| BidiTypes.FindFirstStrongRtl | src/suas/suas_sdf.c:548-556 | the scan finds whether the first strong character is right-to-left |
| BidiTypes.FirstStrongDecides | src/suas/suas_sdf.c:548-556 | the first of L, R and AL decides, AL as R |
| ExplicitLevels.StepState | src/suas/suas_sdf.c:579-668 | every step keeps the stack machine safe: levels strictly increasing and at most 125, the isolate counter equal to the isolate entries on the stack, a bottom that is never popped |
| ExplicitLevels.StackFits | src/suas/suas_sdf.c:568-650 | a safe stack uses at most 126 of its 128 entries |
| ExplicitLevels.PopToIsolate | src/suas/suas_sdf.c:640-650 | the pop loop of PDI stops on an isolate entry above the bottom and removes exactly up to it |
| ExplicitLevels.PhaseExplicit | src/suas/suas_sdf.c:568-668 | the phase in place computes the explicit levels and never leaves the 128-entry array |
| ExplicitLevels.Isolation | src/suas/suas_sdf.c:612-655 | around an isolate initiator and its matching PDI the whole state is restored and the two get the same level and, under an override, the same class, in valid and overflow isolates, whatever embeddings and overrides stand inside |
| ExplicitLevels.DirectlyInside | src/suas/suas_sdf.c:579-631 | text up to the next control after an opening one has the next level of the control's direction, and L inside LRO, R inside RLO; after one that does not open it is treated like the text before |
| Embeddings.EmbeddingRestores | src/suas/suas_sdf.c:584-610 | around an embedding control and its matching PDF the whole state is restored, whether the control opened a level or overflowed, and whatever isolates stand between |
| Embeddings.NestedRestores | src/suas/suas_sdf.c:579-655 | text in which all controls match up leaves the state as it was |
| Embeddings.PdfWithNothingToClose | src/suas/suas_sdf.c:601-610 | a PDF leaves the state alone exactly inside an overflow isolate, or when no embedding overflows and the bottom or an isolate entry is on top |
| Embeddings.SameAfterPdf | src/suas/suas_sdf.c:579-668 | text after the PDF has the level, and under an override the class, of text right before the control |
| Embeddings.NeutralHere | src/suas/suas_sdf.c:654-657 | a boundary neutral is removed and has the level of text in its place |
| ExplicitLevels.ExplicitLevelBound | src/suas/suas_sdf.c:568-668 | no explicit level exceeds 125 |
| ExplicitLevels.BottomStays | src/suas/suas_sdf.c:568-668 | whatever the text, the paragraph's own entry stays at the bottom of the stack |
| ExplicitLevels.LevelsFromParagraph | src/suas/suas_sdf.c:579-668 | embedding controls and PDF keep the level they came with, and every other character gets the paragraph level or a higher one |
| ExplicitLevels.SpaceAfterExplicit | src/suas/suas_sdf.c:579-668 | white space and separators stay neutral or are overridden to their level's direction, and are on the paragraph level exactly when they are paragraph separators or nothing is open |
| ExplicitLevels.KeptAfterExplicit | src/suas/suas_sdf.c:585-668 | exactly the embedding controls, PDF and BN are removed |
| WeakTypes.PassW1 | src/suas/suas_sdf.c:690-696 | in place, each kept mark takes the class of the last kept character before it that is not a mark |
| WeakTypes.PassW3 | src/suas/suas_sdf.c:698-718 | in place, numbers after an Arabic letter become Arabic numbers and Arabic letters become R |
| WeakTypes.PassW4 | src/suas/suas_sdf.c:720-744 | in place, single separators join the numbers around them, as seen before the pass |
| WeakTypes.PassW5 | src/suas/suas_sdf.c:746-762 | in place, terminators join European numbers next to their unbroken run |
| WeakTypes.PassW7 | src/suas/suas_sdf.c:772-786 | in place, European numbers after L become L |
| WeakTypes.PhaseWeak | src/suas/suas_sdf.c:686-787 | the six passes in order |
| WeakTypes.WeakResult | src/suas/suas_sdf.c:686-787 | afterwards thirteen classes are left, marks stand only before everything else, and only classes have changed |
| WeakRules.MarkTakes | src/suas/suas_sdf.c:690-696 | a mark ends the first pass with the class of the last kept character before it that is no mark |
| WeakRules.LeadingMark | src/suas/suas_sdf.c:690-696 | a mark with none before it stays a mark |
| WeakRules.NoMark | src/suas/suas_sdf.c:690-696 | the first pass changes nothing but kept marks |
| WeakRules.NumberAfterLetter | src/suas/suas_sdf.c:698-718 | of the numbers after a letter those after an Arabic one, and only those, become Arabic numbers |
| WeakRules.NumberAfterNothing | src/suas/suas_sdf.c:698-718 | a number with no letter before it stays |
| WeakRules.ArabicLetters | src/suas/suas_sdf.c:698-718 | Arabic letters become R, and everything else but numbers stays |
| WeakRules.SeparatorBetween | src/suas/suas_sdf.c:720-744 | a common separator between two European or two Arabic numbers joins them and is otherwise neutral; a European one joins European numbers only |
| WeakRules.SeparatorAtEnd | src/suas/suas_sdf.c:720-744 | at either end of the paragraph a separator joins nothing |
| WeakRules.NoSeparator | src/suas/suas_sdf.c:720-744 | the pass changes nothing but kept separators |
| WeakRules.TerminatorJoins | src/suas/suas_sdf.c:746-762 | a terminator becomes a European number exactly when one stands before it with only terminators between, or after its unbroken run |
| WeakRules.NoTerminatorKept | src/suas/suas_sdf.c:746-762 | the pass changes nothing but kept terminators |
| WeakRules.LeftOver | src/suas/suas_sdf.c:763-769 | separators and terminators that joined no number are neutral |
| WeakRules.NumberAfterLatin | src/suas/suas_sdf.c:771-786 | of the European numbers that are left those after L, and only those, become L |
| WeakRules.NumberResult | src/suas/suas_sdf.c:686-787 | through the whole phase a European number follows the last letter of the text before it: AN after an Arabic one, L after a left-to-right one, itself after a right-to-left one |
| WeakRules.FirstNumberResult | src/suas/suas_sdf.c:686-787 | and stays when there is no letter before it |
| WeakRules.OthersResult | src/suas/suas_sdf.c:686-787 | through the whole phase AL becomes R, and letters, Arabic numbers and neutrals stay |
| WeakRules.SeparatorResult | src/suas/suas_sdf.c:686-787 | through the whole phase a separator ends as the European numbers on both sides do, as an Arabic number between two, or neutral |
| WeakRules.BetweenDigits | src/suas/suas_sdf.c:686-787 | so the separator between two digits ends as they do, but for a European one after an Arabic letter |
| NeutralTypes.PassN0 | src/suas/suas_sdf.c:809-833 | in place, the bracket pass is the fold of one bracket's turn |
| NeutralTypes.BracketsResolved | src/suas/suas_sdf.c:809-833 | only matching kept pairs change, both to the same direction, and no opening bracket is left with a closing one to pair with |
| NeutralTypes.PairDirection | src/suas/suas_sdf.c:789-833 | a pair gets the direction of the first strong character inside, as earlier pairs have left it, or else that of its embedding |
| NeutralTypes.NearestPartner | src/suas/suas_sdf.c:816-822 | the partner is the nearest matching closing bracket that no earlier opening bracket has taken |
| NeutralTypes.NoPartner | src/suas/suas_sdf.c:816-822 | an opening bracket stays alone only when all closing brackets that match it are taken |
| NeutralTypes.PairsApart | src/suas/suas_sdf.c:809-833 | no character belongs to two pairs |
| NeutralTypes.OutsidePairs | src/suas/suas_sdf.c:809-833 | a character in no pair is unchanged |
| NeutralRules.PairFollowsInside | src/suas/suas_sdf.c:808-829 | the brackets of a pair become L or R like the first L, R or AN between them |
| NeutralRules.PairFollowsLevel | src/suas/suas_sdf.c:808-829 | with none between them they follow the parity of their level |
| NeutralTypes.PassN1 | src/suas/suas_sdf.c:836-854 | in place, an unbroken run of neutrals takes the direction on both sides of it, as it was before the pass |
| NeutralRules.NeutralsBetween | src/suas/suas_sdf.c:831-853 | an unbroken run of neutrals becomes L between two L, R when R or AN stands on either side, and stays otherwise |
| NeutralRules.NeutralsAtEnd | src/suas/suas_sdf.c:831-853 | a run at either end of the paragraph stays |
| NeutralRules.NeutralsFollowLevel | src/suas/suas_sdf.c:855-860 | what is still neutral follows the parity of its level |
| NeutralRules.NotNeutral | src/suas/suas_sdf.c:804-861 | each of the three passes leaves alone what is removed or not neutral |
| NeutralRules.NeutralResult | src/suas/suas_sdf.c:804-861 | through the whole phase neutrals become L or R, and everything else stays |
| NeutralTypes.PhaseNeutral | src/suas/suas_sdf.c:804-861 | the three neutral passes in order |
| NeutralTypes.ImplicitLevel | src/suas/suas_sdf.c:865-886 | R gets an odd level and L an even one, at most one above; numbers an even one above their own, at most two |
| NeutralRules.LeastLevel | src/suas/suas_sdf.c:865-886 | it is the least level of the right parity: from the character's own on for L and R, above it for numbers |
| NeutralTypes.PhaseImplicit | src/suas/suas_sdf.c:865-886 | in place, every kept character gets its implicit level |
| PairTables.BidiMirror | src/suas/suas_sdf.c:504-521 | the first table entry for a codepoint in the Unicode zone, or the codepoint itself |
| PairTables.MirroredTwice | src/suas/suas_sdf.c:485-521 | mirroring twice gives the codepoint back |
| PairTables.BracketsMirror | src/suas/suas_sdf.c:485-544 | every opening bracket mirrors to its closing bracket |
| PairTables.MirrorExactly | src/suas/suas_sdf.c:485-521 | exactly the entries of the mirror table are mirrored |
| PairTables.CloseExactly | src/suas/suas_sdf.c:523-544 | exactly the entries of the bracket table are opening brackets |
| Reorder.MirrorInvolution | src/suas/suas_sdf.c:924-941 | reversing the runs of one level twice is the identity |
| Reorder.AscendingInvertsDescending | src/suas/suas_sdf.c:923-943 | the reversals in ascending order are the inverse permutation of those in descending order |
| Reorder.L2OnFixedPositions | src/suas/suas_sdf.c:923-943 | letting the levels move with the characters, as rule L2 does, gives the same order as fixed positions |
| Reorder.L2IsDownToOne | src/suas/suas_sdf.c:923-943 | stopping at level 1 equals stopping at the lowest odd level |
| Reorder.PhaseReorder | src/suas/suas_sdf.c:890-944 | the phase in place stores the ascending composition and nothing else, and does nothing above 4096 characters |
| Reorder.LineLevelIs | src/suas/suas_sdf.c:906-921 | for any classes, the trailing loop puts a kept character at the paragraph level exactly when it and all kept ones after it are separators or white space |
| Reorder.VisualMapInvertsDescending | src/suas/suas_sdf.c:890-944 | the stored map is the inverse of reversing down to the level above the paragraph's; characters at or below the paragraph level stay |
| Reorder.VisualMapInvertsL2 | src/suas/suas_sdf.c:890-944 | in left-to-right paragraphs it is the inverse of rule L2 |
| Reorder.VisualMapIsL2 | src/suas/suas_sdf.c:890-944 | with levels up to 2 it is the order of rule L2 itself exactly when every two neighbours on level 2 are mirrored by the reversal at level 1 |
| Reorder.VisualMapIsL2WhenMirrored | src/suas/suas_sdf.c:890-944 | with any levels it is that order when each reversal mirrors the neighbours at all higher levels |
| Reorder.MirroredIsNotNeeded | src/suas/suas_sdf.c:923-943 | beyond level 2 that condition is not necessary: levels 1, 1, 3, 3 |
| Reorder.RightToLeftParagraph | src/suas/suas_sdf.c:924-941 | on any final levels, without the reversal at level 1 it is the inverse of rule L2 exactly when no two neighbours have levels of 1 or more |
| Paragraph.RightToLeftText | src/suas/suas_sdf.c:568-944 | in a right-to-left paragraph it is the inverse of rule L2 exactly when of any two neighbouring characters of the text one is an embedding control or PDF |
| Paragraph.TwoLettersStay | src/suas/suas_sdf.c:568-944 | for two Hebrew letters the stored map is 0, 1 and the order of rule L2 is 1, 0 |
| Paragraph.ResolveParagraph | src/suas/suas_sdf.c:946-995 | the whole call: status, paragraph level, resolved characters and visual order, with the limits and the empty paragraph, and what it leaves alone in longer arrays |
| Paragraph.AutoLevel | src/suas/suas_sdf.c:968-973 | the paragraph level: the caller's direction, or that of the first strong character, or left-to-right |
| Paragraph.EveryCharacterResolved | src/suas/suas_sdf.c:568-886 | every kept character ends as R on the least odd level from its explicit one on, L on the least even one, a number on the least even one above it, or a leading mark on its explicit level; none is above 126 |
| Paragraph.TextReadBack | src/suas/suas_sdf.c:982-992 | exactly the kept odd-level characters with a mirror image are replaced, and the text can be read back |
| Paragraph.TrailingSpaceKeepsItsLevel | src/suas/suas_sdf.c:906-921 | the loop for trailing white space changes no level |
| Paragraph.TrailingLevel | src/suas/suas_sdf.c:686-921 | a neutral space or separator with only such after it ends on its explicit level |
| Paragraph.LastSpaceLevel | src/suas/suas_sdf.c:568-921 | the last kept character, if it is white space or a separator, ends on its explicit level, which is the paragraph's exactly when it is a paragraph separator or no embedding, override or isolate is open |
| Paragraph.SpaceStaysRaised | src/suas/suas_sdf.c:906-921 | a space after an unclosed right-to-left embedding stays above the paragraph level |
| Paragraph.VisualOrder | src/suas/suas_sdf.c:890-944 | the visual order of a resolved paragraph in terms of its final levels |
| Paragraph.PlainVisualOrder | src/suas/suas_sdf.c:568-944 | in a left-to-right paragraph without controls the visual order is that of rule L2 exactly when all neighbours on level 2 are mirrored |
| Paragraph.VisualMapIsNotL2 | src/suas/suas_sdf.c:923-924 | for the text of two digits and a right-to-left letter the levels are 2, 2, 1, the stored map is 1, 2, 0 and the order of rule L2 is 2, 0, 1 |
| Framer.SdfFramer.ProcessCodepoint | src/suas/suas_sdf.c:111-265 | in place, one step of the framer: stack, status and word, codepoints above the Unicode zone having the neutral flag only |
| Framer.SdfFramer.CurrentDir | src/suas/suas_sdf.c:279-285 | the direction of the innermost isolate, which is left-to-right or right-to-left |
| Framer.DirectionOf | src/suas/suas_sdf.c:111-175 | a word is undirected exactly when its codepoint has no directional flag; only mirrored ones depend on the isolate |
| Framer.WordLabelled | src/suas/suas_sdf.c:111-264 | over any run: mirrored characters follow the isolate, other ones are right-to-left exactly with an RTL or Arabic flag, left-to-right exactly with the LTR flag and neither of those; the mirrored bit is the flag |
| Framer.RefusesExactly | src/suas/suas_sdf.c:201-241 | a push at depth 32 and a pop at depth 1 are refused with their own status and break the framer; a framer that is not active refuses everything |
| Framer.StartsIn | src/suas/suas_sdf.c:180-199 | a stream starts in the direction that was asked for, or left-to-right |
| Framer.NativeIsUndirected | src/suas/suas_sdf.c:111-264 | wherever a codepoint above the Unicode zone that is no directive stands, its word is undirected while the isolate has a direction |
| Framer.NativeAfterTurn | src/suas/suas_sdf.c:111-264 | for instance a native codepoint after a right-to-left directive |
| Framer.SdfFramer.Finish | src/suas/suas_sdf.c:267-277 | ends the stream unless it is broken, keeping the stack |
| Framer.Frame | src/suas/suas_sdf.c:305-337 | the words written are a prefix of the stream's, all of them on success; the exact status |
| Framer.RunOf | src/suas/suas_sdf.c:180-265 | every stream has a run from a safe state, safe throughout: depth 1 to 32 and directions left-to-right or right-to-left |
| Framer.StoppedAt | src/suas/suas_sdf.c:209-212 | a stopped framer stays as it is and gives no more words |
| Framer.DepthCounts | src/suas/suas_sdf.c:222-240 | a framer is active exactly while every prefix has between 0 and 31 more pushes than pops, and its depth is one more than that number |
| Framer.QuietKeeps | src/suas/suas_sdf.c:214-264 | ordinary codepoints and whole isolates, whatever is inside, leave the state as it was |
| Framer.LastDirectiveWins | src/suas/suas_sdf.c:214-240 | the direction in force is that of the last directive at the same depth, and an isolate starts with the one in force at its push |
| Framer.IsolateRestores | src/suas/suas_sdf.c:222-240 | a push, balanced content with any directives, and the matching pop restore the whole state |
| Framer.OneWordEach | src/suas/suas_sdf.c:243-264 | an active framer has given one word for each codepoint that is not a directive, in order |
| Framer.LastErrorSwallowed | src/suas/suas_sdf.c:319-336 | one-shot framing succeeds on a failing stream exactly when the words fit and the last codepoint is the one that fails |
| Framer.LonePop | src/suas/suas_sdf.c:319-336 | a single pop is such an input |
| Framer.FrameIsStream | src/suas/suas_sdf.c:305-337 | otherwise it succeeds exactly when the words fit, and gives one word for each ordinary codepoint |
| Framer.FrameRefuses | src/suas/suas_sdf.c:305-337 | the other verdicts: no room, words that do not fit, a codepoint refused before the last |
| ManifestRanges.RangeAdmissiblePointwise | src/suas/suas_scms.c:246-277 | the constant-time range test holds exactly when the range is ordered, within the span, and every codepoint in it is admissible |
| ManifestRanges.PlaneMaskPointwise | src/suas/suas_scms.c:279-299 | a plane bit is set exactly when some codepoint of the range lies in the plane |
| ManifestRanges.MasksJoin | src/suas/suas_scms.c:279-299 | cutting a range in two cuts its mask into a union |
| ManifestRanges.AdmissibleTouches | src/suas/suas_scms.c:258-299 | an admissible range touches a plane, never the control plane |
| ManifestFields.ReadCp | src/suas/suas_scms.c:108-127 | the loop accepts U+ and one to eight hexadecimal digits and gives their value |
| ManifestFields.ReadFlags | src/suas/suas_scms.c:130-154 | the loop accepts 0x and one to four hexadecimal digits within the bound |
| ManifestFields.ReadDec | src/suas/suas_scms.c:157-176 | the loop, with its early exit, accepts one to ten decimal digits within the bound |
| ManifestFields.CpInverse | src/suas/suas_scms.c:108-127 | a printed codepoint reads back |
| ManifestFields.FlagsInverse | src/suas/suas_scms.c:130-154 | a printed flag word reads back |
| ManifestFields.DecimalInverse | src/suas/suas_scms.c:157-176 | a printed decimal number reads back |
| ManifestDigits.CpExactly | src/suas/suas_scms.c:90-127 | a field is read as a codepoint exactly when it is U or u, a plus sign, and the one to eight hexadecimal digits of that number, letters in either case |
| ManifestDigits.FlagsExactly | src/suas/suas_scms.c:90-154 | a field is read as a flag word exactly when it is a zero, x or X, and the one to four digits of that number, within the bound |
| ManifestDigits.DecimalExactly | src/suas/suas_scms.c:157-176 | a field is read as a decimal number exactly when it is the one to ten digits of it, within the bound |
| ManifestDigits.CaseBlind | src/suas/suas_scms.c:90-154 | small and capital hexadecimal letters are read alike |
| ManifestDigits.SmallLetters | src/suas/suas_scms.c:90-127 | for instance u+4e00 |
| ManifestFields.NextField | src/suas/suas_scms.c:217-231 | each call takes the next field off the line |
| ManifestFields.FieldsOfJoin | src/suas/suas_scms.c:217-231 | fields joined by tabs come apart again, with or without one more tab at the end |
| ManifestFields.JoinOfFields | src/suas/suas_scms.c:217-231 | every line is the join of its fields, or that and one tab |
| ManifestRecords.ValidateRecord | src/suas/suas_scms.c:308-473 | the verdict on a line, with the first error in the order of the code |
| ManifestRecords.ReadFieldAt | src/suas/suas_scms.c:475-523 | the value or the error of one column |
| ManifestRecords.ValidationMatchesColumns | src/suas/suas_scms.c:308-523 | a line is valid exactly when all six columns can be read, there is no seventh, and their range is admissible; the descriptor holds columns 0 and 1 |
| ManifestRecords.GrammarExact | src/suas/suas_scms.c:308-473 | the exact grammar of accepted records, with at most one trailing tab |
| ManifestRecords.TrailingTab | src/suas/suas_scms.c:217-231 | one tab after the last column changes nothing |
| ManifestRecords.TabAccepted | src/suas/suas_scms.c:214-231 | the line of the columns U+4E00, U+4E00, 1, 0, 0x0, 1 with a tab after the last one is accepted |
| ManifestRecords.PrintedRecordReadsBack | src/suas/suas_scms.c:308-523 | for all values in range the printed record is valid and every column reads back |
| ManifestVerdicts.FirstFault | src/suas/suas_scms.c:339-424 | with the first columns good, the next one decides: missing, empty, or malformed in its own way |
| ManifestVerdicts.RangeFault | src/suas/suas_scms.c:425-473 | with six good columns: a seventh, the order of the range, a codepoint in it that is no data, its width, or the descriptor |
| ManifestVerdicts.NoRecord | src/suas/suas_scms.c:325-337 | lines of 128 characters or more, blank lines, comments and directives are no records |
| ManifestVerdicts.FieldExactly | src/suas/suas_scms.c:475-523 | which columns can be read and as what, and the error of each that cannot |
| ManifestDirectives.ValidateDirective | src/suas/suas_scms.c:530-577 | the verdict on a directive line |
| ManifestDirectives.NameIs | src/suas/suas_scms.c:579-591 | the comparison holds exactly when the directive's name is the given one |
| ManifestDirectives.ValueOffset | src/suas/suas_scms.c:631-640 | the offset at which the value begins |
| ManifestDirectives.DirectiveParts | src/suas/suas_scms.c:530-640 | a directive can be taken apart in one way only, and the reader finds its name and value |
| ManifestDirectives.DirectiveExact | src/suas/suas_scms.c:530-577 | the exact grammar of well-formed directives |
| ManifestReader.MeaningOf | src/suas/suas_scms.c:642-720 | what a line amounts to by itself: a rejected line has a reason, an accepted record an admissible range |
| ManifestVerdicts.OtherLines | src/suas/suas_scms.c:182-202 | lines that are too long, blank or comments |
| ManifestVerdicts.RecordLine | src/suas/suas_scms.c:704-714 | a record line counts for the range of its first two columns or is rejected for its fault |
| ManifestVerdicts.VersionLine | src/suas/suas_scms.c:649-653 | a %manifest directive gives its value as the version |
| ManifestVerdicts.TotalLine | src/suas/suas_scms.c:654-662 | a %records directive gives a total exactly when its value is a decimal number of 32 bits |
| ManifestVerdicts.PlanesLine | src/suas/suas_scms.c:663-671 | a %planes directive declares a set of planes exactly when its value is the word with their bits |
| ManifestVerdicts.ReservedLine | src/suas/suas_scms.c:672-673 | any other well-formed directive is ignored |
| ManifestVerdicts.MalformedDirective | src/suas/suas_scms.c:642-648 | a malformed one is rejected |
| ManifestReader.Reader.FeedLine | src/suas/suas_scms.c:676-720 | in place, folds the meaning of one line into the state and returns whether it was accepted |
| ManifestReader.Reader.FoldDirective | src/suas/suas_scms.c:642-674 | in place, a directive changes the header or counts as an error |
| ManifestReader.Reader.End | src/suas/suas_scms.c:722-746 | the closing verdict, in the order of the code |
| ManifestReader.Reader.PlanesDeclared | src/suas/suas_scms.c:748-756 | whether every observed plane was declared |
| ManifestReader.CountersCount | src/suas/suas_scms.c:676-720 | below the counters' wrap, lines, records, comments, directives and errors count what they say, over every run |
| ManifestReader.HeaderHoldsLast | src/suas/suas_scms.c:642-674 | the header holds the values of the last accepted directives |
| ManifestReader.ObservedIsTouched | src/suas/suas_scms.c:707-716 | the observed planes are those that some codepoint of some accepted record lies in |
| ManifestReader.FirstErrorKept | src/suas/suas_scms.c:619-627 | the line and reason of the first rejected line are kept |
| ManifestReader.EndSucceeds | src/suas/suas_scms.c:722-746 | closing succeeds exactly when a header and a record were accepted, nothing was rejected, and the last declared total is right |
| ManifestReader.EndBlamesFirst | src/suas/suas_scms.c:722-746 | otherwise, with a header and a record, the reason is that of the first rejected line |
| ManifestVerdicts.EndFails | src/suas/suas_scms.c:722-746 | closing fails for a missing header, a missing record and a wrong total, each exactly when it does |
| ManifestReader.UndeclaredPlanes | src/suas/suas_scms.c:748-756 | without %planes the plane check passes exactly when there is a header and no record |
| ManifestReader.HeaderAlone | src/suas/suas_scms.c:748-756 | the manifest of one line, the header, passes the plane check |
| ProbeIndex.Insert | src/suas/suas_sip.c:127-144 | putting an entry into the first free slot on its way keeps every earlier entry in place |
| ProbeIndex.ProbeIsLinearSearch | src/suas/suas_sip.c:148-173 | probing a finished index finds the first entry for the key, or none, for any hash and any table smaller than the index |
| ProbeIndex.ProbeTable.Build | src/suas/suas_sip.c:127-144 | the build terminates and yields a finished index |
| ProbeIndex.ProbeTable.FreeSlot | src/suas/suas_sncs.c:116-133 | probing for a free slot terminates at the first one on the way |
| ProbeIndex.ProbeTable.Find | src/suas/suas_sip.c:148-173 | lookup, building first if need be, terminates and agrees with a linear search of the table behind the admissibility test |
| ProbeIndex.AdmissibleFirst | src/suas/suas_sip.c:52-59 | the admissibility test changes no answer exactly when all keys of the table are admissible |
| LineBreak.Search | src/suas/suas_sbr.c:78-104 | binary search agrees with a linear scan on sorted lists, and is never wrong about what it finds on others |
| LineBreak.BridgeSorted | src/suas/suas_sbr.c:28-75 | the class table is sorted and free of overlaps |
| LineBreak.Classify | src/suas/suas_sbr.c:145-172 | classification by overrides first, then by zone |
| LineBreakRules.TailoredClass | src/suas/suas_sbr.c:145-151 | a tailoring comes first |
| LineBreakRules.ListedClass | src/suas/suas_sbr.c:153-156 | then the table of the Unicode zone |
| LineBreakRules.UnlistedClass | src/suas/suas_sbr.c:153-156 | where what is not listed is unknown |
| LineBreakRules.ZoneClasses | src/suas/suas_sbr.c:158-172 | above that zone: markers, other controls, native words and the rest |
| LineBreak.PairMatrix.Seed | src/suas/suas_sbr.c:208-289 | the loops fill each of the 39 by 39 cells with the first rule that speaks about the pair |
| LineBreak.FirstRuleIs | src/suas/suas_sbr.c:208-289 | a rule that matches after eleven or fewer that do not decides the pair |
| LineBreak.MustBreaks | src/suas/suas_sbr.c:221-234 | exactly the pairs with a hard control break hard, save CR before LF |
| LineBreak.AlphanumBreaks | src/suas/suas_sbr.c:279-286 | exactly a letter before a numeric prefix or postfix gives the alphanumeric break |
| LineBreakRules.PairExactly | src/suas/suas_sbr.c:208-289 | the outcome of every pair of classes: hard controls, then what ties two characters, then a letter before a currency or unit sign, and an opportunity otherwise |
| LineBreakRules.NoBreaks | src/suas/suas_sbr.c:208-289 | no break is allowed exactly inside CR LF and between tied characters where nothing breaks hard |
| LineBreak.PairMatrix.PairClass | src/suas/suas_sbr.c:291-309 | the rule for runs of spaces agrees with the matrix, and classes out of range count as unknown |
| LineBreak.ResolvePair | src/suas/suas_sbr.c:324-336 | the stateless pair result, explicit markers first |
| LineBreakRules.BeforeMarker | src/suas/suas_sbr.c:313-336 | a marker decides the boundary before it, whatever stands there |
| LineBreakRules.AfterControl | src/suas/suas_sbr.c:154-336 | after any other control of the control plane every boundary is hard |
| LineBreakRules.NativePairs | src/suas/suas_sbr.c:154-336 | native words hold together, and beyond them there is an opportunity everywhere |
| LineBreakRules.NoSuchClass | src/suas/suas_sbr.c:291-309 | a class that does not exist counts as unknown |
| LineBreak.BreakStream.ProcessCodepoint | src/suas/suas_sbr.c:338-363 | in place, one step of the stream form |
| LineBreak.StreamIsPairwise | src/suas/suas_sbr.c:324-363 | the stream gives a hard boundary first and then exactly the pair result of each adjacent pair |

## Left out

- The volume registry, address arithmetic, storage flag conversion, version and name strings, NULL-argument
  branches: nothing in them spans operations.
- Path collisions: how likely two paths share a hash.
- The range tests on child indices in the two walks, which can never fire for a pool that the operations made.
- Casts into the reserved bytes that hold the trie; the pool is kept in arrays of its own.
- The contents of the Unicode class tables of the bidirectional engine and of the framer's flag table, and of
  the ideograph and sequence tables: parameters. Their hashes are parameters too.
- Reorder.VisualMapIsL2WhenMirrored: for levels above 2 the condition is sufficient only; an exact one would have to
  leave out the levels whose reversals cancel.
- Paragraph.ResolveParagraph: the phases work in an array of the paragraph's length, which stands for the front of the
  caller's array and is copied there at the end.
- ManifestReader.Reader.FeedLine: the version is stored by value where the code borrows the line's buffer, and the
  last-error variable shared by all readers is the method's result instead.
- The schema-link gate of the manifest reader: it calls SSRE, which is not part of this model.
- Name canonicalisation and equality in the sequence engine (`sncs_canon`, `suas_sncs_names_equal`), and the zone,
  plane and ideograph predicates beside the two indexes: easy members or loops without a law of their own.
- The prefix sums of `src/suas/suas_sgw.c`: the same binary search as the line-break engine.
- Ring buffers, stubs, the UAX and UTS conversion tables, adapters and test drivers.
- Conformance to UAX #9 or UAX #14, which the code does not aim at exactly; the differences found are listed above.

# A verified model of NativeLibsCommon

A Dafny model of the parts of AdGuard's NativeLibsCommon that carry the hard invariants, with proofs
for all inputs, all runs and all interleavings. Every file is checked together:
`dafny verify dfyconfig.toml`.

| files | component | main results |
|---|---|---|
| `Dafsa*.dfy` | the compiler of word lists into byte-coded automata and the machine that walks the bytes | compiling a list and looking up any key gives the listed value, or "not found" iff the key is not listed; short lists compile iff no word that comes first for its value is repeated, longer ones iff all links of the run reach as well (`CompileAndLookup`) |
| `Tld.dfy` | registry suffixes on top of the compiled rules | the longest matching suffix; when cutting a domain down gives that suffix and the nearest labels, as an if-and-only-if |
| `Cidr*.dfy` | CIDR ranges, their difference and the range set | `Exclude` is the coarsest difference; `Includes` answers for everything ever inserted, by binary search with a comparison that is no weak order |
| `Parallel.dfy` | the coroutine combinators | safety of `any_of_cond` and `all_of` in every interleaving |
| `Lru*.dfy` | the caches | in every run the list is a map of last uses, most recent first, and a full cache drops the least recent key; LRU inclusion; a lookup hits iff the entry is fresh, and keys and deadlines agree iff no shrink has leaked |
| `Http3Send.dfy` | the HTTP/3 send buffer | bytes are conserved iff acknowledgements stay within what was handed out; when the end of the body is raised, on the calls that were made |
| `Routing.dfy` | the Linux routing table | tables, cached defaults and change flag follow a simple map in every run, and the first match for an address is a longest match |
| `Http1Chunked.dfy` | bodies over HTTP/1 | what is sent in chunks is read back, iff no early call is empty; counted and plain bodies |
| `Cesu8*.dfy`, `Base64*.dfy` | codecs | round trips, exact lengths, exact acceptance; the output for any bytes, sequence by sequence and bit by bit; when it is CESU-8, as an if-and-only-if |
| `Common.dfy`, `Sums.dfy` | what the others share | optional values, bytes and powers of two; sums over finite maps |

## How the model is built

- **Compiler.** The Python nodes are objects with identity, so a graph is a heap of nodes under
  identities, with a source list. Identities are chosen so that children lie below their parents; a
  reversed graph uses mirrored identities. The five passes, the topological order, the link encoding
  and the layout are each a method with a specification of its own, and `DafsaStages.dfy` shows what
  every pass keeps. The two walks that count references, in `join_labels` and `top_sort`, are one
  walk here. Bytes are numbers and an image is in memory order, while the encoder builds it reversed.
  Looking up takes any integers as characters, so it does not matter whether `char` is signed. The
  error path is modelled: `InputError` for an empty list or an unprintable word, `IndexError` for an
  empty word, and the assertions of the encoder for a repeated sink and for a distance of 2^21 or more.
- **Size.** `DafsaSize.dfy` follows the bytes that a graph may need through the passes: from the trie,
  whose nodes have one parent each, to the joined graph. That bounds the image by seven bytes for each
  character of the words, so a list below 2^21 / 7 characters never meets the distance assertion. For
  longer lists `DafsaEncode.dfy` defines the run of the encoder over an order of the nodes as a function
  (`LaidOut`), and success is decided by the distances of that run (`AllReach`).
- **Repeated words.** A repeated word shows in the trie as a value node that holds the sink twice, and
  joining suffixes keeps one node for each word set, the first that the walk meets. `DafsaReverse.dfy`
  keeps the order of the lists, and `DafsaOrder.dfy` brings it back to the words: the trie lists children
  by the first word that begins with their prefix, so the encoder sees a repetition iff the first word of
  some value in that walk occurs twice (`RepeatedFirst`). A list with a repeated word fails or compiles
  depending on the order of the words (`OrderDecides`).
- **Suffix sets as keys.** `join_suffixes` uses the set of words of a node as a dictionary key; the
  model does the same and shows that equal sets mean equal languages.
- **CIDR.** A range is kept as address bytes, mask bytes and a prefix length, as in the header, and is
  tied to a block: the bit prefix that its addresses share. Ranges are assumed valid; strings are not
  parsed. `std::multiset` is a sorted sequence whose searches may compare elements in any order.
- **Coroutines.** Each critical section is one atomic step, and so is `remaining++`, which the code
  does outside the mutex. A run is any sequence of enabled steps.
- **Caches.** Lists and the multimap are sequences of elements with identities; an iterator is such an
  identity. Each reading of the clock is a parameter. Eviction is reported through a result instead of
  the virtual `on_key_evicted`. `LruTimeoutCache` holds its base class as a component, and its two
  timeout containers as another.
- **HTTP/3.** The foreign buffer is a byte sequence; how much of it a peek yields is an arbitrary
  number, not zero while bytes are unsent. Window sizes are parameters.
- **Base64.** A byte is an index from 0 to 255 into the basis table, which is what the code means; a
  platform whose `char` is signed would index in front of the table for bytes from 128 on.
- **Routing.** Which interfaces are ignored is an arbitrary predicate, given anew for each evaluation.
  Sorting may leave routes of equal rank in any order.
- **HTTP/1.** `output` is everything passed to the output handler. The reader is the grammar of section
  7.1 of RFC 9112 without chunk extensions and trailer fields, which the sender never writes.

## Where the code and its comments differ

- `CidrRangeSet::insert` is documented to return false if the set includes the range. For a range that
  is itself stored it erases it, inserts it again and returns true; `Insert` states that.
- `set_capacity` is documented to take 0 as the default capacity. It sets the capacity to 0.
- `set_capacity` does not call `on_key_evicted`, so a shrinking `LruTimeoutCache` keeps deadlines of
  keys that are gone (`ShrinkingLeaks`, `ShrinkLeaks`); `SameKeys` says which, in every run.
- `utf8_to_cesu8` says that a character is never above 0x10FFFF. A four-byte sequence can spell up to
  0x1FFFFF, and leaves as the pair of its last twenty bits (`BeyondUnicode`).
- `utf8_to_cesu8` takes overlong forms. One that spells a number below 0x80 leaves in two bytes, which
  CESU-8 does not allow (`OverlongStays`); `Cesu8Iff` states that nothing else goes wrong.
- `reduce_domain` on a domain that is itself a rule wraps its position around and counts labels of the
  rule (`RuleLosesLabel`); `ReduceDomain` states exactly when.
- `send_body_impl` writes the zero chunk for an empty call that does not end the body; `WireReads`
  states what that does.
- `active_stream` of a server is the last stream, and `send_body_impl` removes the first one when a body
  ends. With several streams the finished one stays and another is lost (`FinishedIsGoneIff`).

## Model

| member | source | states |
|---|---|---|
| `DafsaGraph.SuffixesAreAccepted` | conan/recipes/tldregistry/chromium/net/tools/dafsa/make_dafsa.py:233-237 | the words generated from a node are exactly the words that paths from it to the sink spell |
| `DafsaGraph.SameSuffixesSameLanguage` | conan/recipes/tldregistry/chromium/net/tools/dafsa/make_dafsa.py:314-315 | two nodes have equal sets of generated words iff they accept the same words, in whatever graphs they live |
| `DafsaBuild.Builder.ToNodes` | conan/recipes/tldregistry/chromium/net/tools/dafsa/make_dafsa.py:223-229 | succeeds iff the word is non-empty and printable ASCII, says which of the two failed, and leaves a fresh chain of one node per character that ends in the value of the last character |
| `DafsaBuild.ToDafsa` | conan/recipes/tldregistry/chromium/net/tools/dafsa/make_dafsa.py:214-230 | succeeds iff the list is non-empty and every word is good; then the graph is one separate chain per word, with one node per character |
| `DafsaBuild.ChainSpells` | conan/recipes/tldregistry/chromium/net/tools/dafsa/make_dafsa.py:223-229 | each node of a chain accepts exactly the rest of its word |
| `DafsaBuild.ChainsSpell` | conan/recipes/tldregistry/chromium/net/tools/dafsa/make_dafsa.py:230 | the graph of chains spells exactly the listed words |
| `DafsaReverse.Reversal.Record` | conan/recipes/tldregistry/chromium/net/tools/dafsa/make_dafsa.py:253-260 | an edge is recorded at the node it leads to, which is made on the first visit |
| `DafsaReverse.Reversal.Dfs` | conan/recipes/tldregistry/chromium/net/tools/dafsa/make_dafsa.py:247-260 | from any state of the walk, every edge that becomes reachable is recorded once, and nothing else; every recorded list stays in the order of the walk |
| `DafsaReverse.Reverse` | conan/recipes/tldregistry/chromium/net/tools/dafsa/make_dafsa.py:240-264 | the result holds every reachable edge reversed, as often as it occurs, with source list and sink exchanged; each list is ordered by the first entry of the old source list that leads to the node |
| `DafsaReverse.TurnEnds` | conan/recipes/tldregistry/chromium/net/tools/dafsa/make_dafsa.py:262-263 | after each entry of the source list exactly the nodes that it or an earlier entry leads to have been visited |
| `DafsaReverse.RecordedTimely` | conan/recipes/tldregistry/chromium/net/tools/dafsa/make_dafsa.py:253-260 | recording a parent that was visited in this turn keeps every list in order |
| `DafsaReverse.TransposedValid` | conan/recipes/tldregistry/chromium/net/tools/dafsa/make_dafsa.py:240-264 | a reversed graph is again a well-formed acyclic graph |
| `DafsaReverse.ForwardPath` | conan/recipes/tldregistry/chromium/net/tools/dafsa/make_dafsa.py:240-264 | a path down the old graph, continued by a path down the new one, is a path of the new graph with the word reversed |
| `DafsaReverse.BackwardPath` | conan/recipes/tldregistry/chromium/net/tools/dafsa/make_dafsa.py:240-264 | the same in the other direction |
| `DafsaReverse.TransposedSpells` | conan/recipes/tldregistry/chromium/net/tools/dafsa/make_dafsa.py:240-264 | the reversed graph spells a word reversed iff the graph spells the word |
| `DafsaJoinSuffixes.SuffixJoin.Join` | conan/recipes/tldregistry/chromium/net/tools/dafsa/make_dafsa.py:310-320 | returns a node that accepts the same words, keeping the map from word sets to nodes exact and injective |
| `DafsaJoinSuffixes.SuffixJoin.Make` | conan/recipes/tldregistry/chromium/net/tools/dafsa/make_dafsa.py:315-319 | a missing word set gets a node, made after the nodes of its children; recursion never enters the same set twice |
| `DafsaJoinSuffixes.JoinSuffixes` | conan/recipes/tldregistry/chromium/net/tools/dafsa/make_dafsa.py:304-322 | every node comes from an old one, no two nodes accept the same words, and the source lists agree word for word; with labels of one letter, each word set of a value is represented by the first node in the walk that has it |
| `DafsaJoinSuffixes.SuffixesJoinedSpells` | conan/recipes/tldregistry/chromium/net/tools/dafsa/make_dafsa.py:304-322 | joining suffixes preserves the set of words |
| `DafsaJoinSuffixes.FirstOnesFound` | conan/recipes/tldregistry/chromium/net/tools/dafsa/make_dafsa.py:310-320 | a node whose word set is filed already brings no word set of a value that is not filed |
| `DafsaJoinSuffixes.FirstOnesEntered` | conan/recipes/tldregistry/chromium/net/tools/dafsa/make_dafsa.py:315-319 | a node made for a value is the first in the walk with its word set |
| `DafsaReferences.Counter.Count` | conan/recipes/tldregistry/chromium/net/tools/dafsa/make_dafsa.py:274-282 | one visit adds one reference and, on the first visit, those of everything reached from there |
| `DafsaReferences.CountReferences` | conan/recipes/tldregistry/chromium/net/tools/dafsa/make_dafsa.py:330-341 | each reachable node, and no other, with exactly the number of references from the source list and from reachable nodes |
| `DafsaReferences.CountedIsReachable` | conan/recipes/tldregistry/chromium/net/tools/dafsa/make_dafsa.py:330-341 | the counted nodes are exactly those that a path from the source list reaches |
| `DafsaJoinLabels.LabelJoin.Join` | conan/recipes/tldregistry/chromium/net/tools/dafsa/make_dafsa.py:284-297 | every node reached gets a replacement that accepts the same words |
| `DafsaJoinLabels.JoinedLabels` | conan/recipes/tldregistry/chromium/net/tools/dafsa/make_dafsa.py:289-294 | joining the labels along a one-to-one connection keeps the words |
| `DafsaJoinLabels.JoinLabels` | conan/recipes/tldregistry/chromium/net/tools/dafsa/make_dafsa.py:267-301 | the result is made of the replacements, chosen by exact reference counts |
| `DafsaJoinLabels.LabelsJoinedSpells` | conan/recipes/tldregistry/chromium/net/tools/dafsa/make_dafsa.py:267-301 | joining labels preserves the set of words |
| `DafsaTopSort.SubtractSource` | conan/recipes/tldregistry/chromium/net/tools/dafsa/make_dafsa.py:343-345 | the counts that remain are the references from nodes |
| `DafsaTopSort.SelectWaiting` | conan/recipes/tldregistry/chromium/net/tools/dafsa/make_dafsa.py:347-349 | the nodes of the source list without a parent, each as often as the list holds it |
| `DafsaTopSort.ReleaseChildren` | conan/recipes/tldregistry/chromium/net/tools/dafsa/make_dafsa.py:356-360 | taking a node out releases exactly the children whose last parent it was, and the number of counts and waiting nodes never grows |
| `DafsaTopSort.NothingLeft` | conan/recipes/tldregistry/chromium/net/tools/dafsa/make_dafsa.py:352-361 | the loop cannot stop early: with nothing waiting, no node is left |
| `DafsaTopSort.TopSort` | conan/recipes/tldregistry/chromium/net/tools/dafsa/make_dafsa.py:325-361 | ends for every graph; the result is every reachable node once, each before all its children, iff no root is listed twice, and the only error is the assertion of the loop |
| `DafsaStages.ChainsReversed` | conan/recipes/tldregistry/chromium/net/tools/dafsa/make_dafsa.py:461-465 | after the first reversal every node has one child and the source list holds exactly the values |
| `DafsaStages.ReversedTrieJoined` | conan/recipes/tldregistry/chromium/net/tools/dafsa/make_dafsa.py:461-465 | joining suffixes keeps that shape |
| `DafsaStages.TrieReversed` | conan/recipes/tldregistry/chromium/net/tools/dafsa/make_dafsa.py:461-465 | reversed again, at every node no two children begin with the same character and the sink never has siblings of another kind |
| `DafsaStages.GoodGraphJoined` | conan/recipes/tldregistry/chromium/net/tools/dafsa/make_dafsa.py:461-465 | the second joining of suffixes keeps determinism and sole sinks |
| `DafsaStages.GoodGraphMerged` | conan/recipes/tldregistry/chromium/net/tools/dafsa/make_dafsa.py:461-465 | joining labels keeps determinism and sole sinks |
| `DafsaStages.DistinctSources` | conan/recipes/tldregistry/chromium/net/tools/dafsa/make_dafsa.py:461-465 | distinct words give the joined reversed graph a source list without repetition |
| `DafsaStages.ReversedSoleSinks` | conan/recipes/tldregistry/chromium/net/tools/dafsa/make_dafsa.py:367-369 | then the sink is always an only child, which the encoder asserts |
| `DafsaLinks.FlaggedReads` | conan/recipes/tldregistry/chromium/net/base/lookup_string_in_fixed_set.cc:19-44 | reading links one by one from the written bytes yields exactly the targets, in order, and stops after the last |
| `DafsaLinks.PlainMonotone` | conan/recipes/tldregistry/chromium/net/tools/dafsa/make_dafsa.py:371-399 | a smaller guess never needs more bytes |
| `DafsaLinks.NearerInRange` | conan/recipes/tldregistry/chromium/net/tools/dafsa/make_dafsa.py:380 | distances that are in range stay in range for a smaller guess |
| `DafsaLinks.EncodeRound` | conan/recipes/tldregistry/chromium/net/tools/dafsa/make_dafsa.py:375-396 | one round of the loop succeeds iff all distances are in range, and then has written every link |
| `DafsaLinks.FitWidth` | conan/recipes/tldregistry/chromium/net/tools/dafsa/make_dafsa.py:371-399 | the guesses descend to a fixed point: the loop ends with the width that the guesses come down to, equal to the bytes written, or fails iff the first distances are out of range |
| `DafsaLinks.EncodeOffsets` | conan/recipes/tldregistry/chromium/net/tools/dafsa/make_dafsa.py:371-403 | the finished bytes read back as the offsets |
| `DafsaLinks.SortByOffset` | conan/recipes/tldregistry/chromium/net/tools/dafsa/make_dafsa.py:373 | the same children, nearest first, as the stable sort of the code leaves them |
| `DafsaLinks.DistancesPositive` | conan/recipes/tldregistry/chromium/net/tools/dafsa/make_dafsa.py:380 | no distance is ever zero or negative |
| `DafsaLinks.EncodeLinks` | conan/recipes/tldregistry/chromium/net/tools/dafsa/make_dafsa.py:364-403 | a lone sink has no links, a repeated sink is an assertion failure; other children succeed iff every distance is below 2^21 when three bytes are allowed for each link, and then the bytes are the link list for the fitted width and read back as the offsets of all of them |
| `DafsaLinks.WidthOfLink` | conan/recipes/tldregistry/chromium/net/tools/dafsa/make_dafsa.py:381-395 | one byte below 2^6, two below 2^13, else three; the first byte leaves its top bit free iff the distance is below 2^21 |
| `DafsaLinks.FormOfLink` | conan/recipes/tldregistry/chromium/net/tools/dafsa/make_dafsa.py:381-395 | the leading bits of the first byte tell the width, the others spell the distance |
| `DafsaLinks.NearReaches` | conan/recipes/tldregistry/chromium/net/tools/dafsa/make_dafsa.py:364-380 | links reach whenever everything written and three bytes a link stay below 2^21 |
| `DafsaLinks.LinkListLength` | conan/recipes/tldregistry/chromium/net/tools/dafsa/make_dafsa.py:364-403 | links take at most three bytes each, whatever width the guesses come down to |
| `DafsaEncode.LabelRead` | conan/recipes/tldregistry/chromium/net/tools/dafsa/make_dafsa.py:406-423 | a label is found again in the image, its last character marked iff the label ends there |
| `DafsaEncode.NodeLaid` | conan/recipes/tldregistry/chromium/net/tools/dafsa/make_dafsa.py:431-438 | putting the bytes of a node in front keeps every node laid out before it |
| `DafsaEncode.EncodeNode` | conan/recipes/tldregistry/chromium/net/tools/dafsa/make_dafsa.py:432-438 | a node is written as a prefix of its only child when that follows, and with links otherwise; either way it reads back |
| `DafsaEncode.EncodeNext` | conan/recipes/tldregistry/chromium/net/tools/dafsa/make_dafsa.py:431-438 | one node of the reversed order keeps the layout of all before it |
| `DafsaEncode.Encode` | conan/recipes/tldregistry/chromium/net/tools/dafsa/make_dafsa.py:426-442 | for the order in which top_sort lists the nodes: succeeds iff no reachable node lists the sink twice and all links of the run over that order reach; then the image is the one that this run lays out, every node and the source list read back from it, and it stays within the footprint; an error says which of the two it was |
| `DafsaEncode.LaidOutFits` | conan/recipes/tldregistry/chromium/net/tools/dafsa/make_dafsa.py:426-442 | over any topological order the run places the nodes one in front of the other, within what they can take |
| `DafsaEncode.SmallReaches` | conan/recipes/tldregistry/chromium/net/tools/dafsa/make_dafsa.py:426-442 | all links reach in a graph whose footprint is below 2^21, in whatever topological order it is written |
| `DafsaEncode.DeterministicDistinct` | conan/recipes/tldregistry/chromium/net/tools/dafsa/make_dafsa.py:426-430 | after the passes no node is listed twice on the source list, so the topological order exists |
| `DafsaEncode.MarkedCharacter` | conan/recipes/tldregistry/chromium/net/tools/dafsa/make_dafsa.py:406-423 | a label byte is its character, with the top bit set iff it is the last one of a label that ends there |
| `DafsaSize.TrieFootprint` | conan/recipes/tldregistry/chromium/net/tools/dafsa/make_dafsa.py:461-466 | the trie takes at most four bytes a node and three for each word: every node but the roots has one parent, and the sink is listed once for each word |
| `DafsaSize.JoinedSize` | conan/recipes/tldregistry/chromium/net/tools/dafsa/make_dafsa.py:304-322 | joining suffixes leaves no more nodes and no more bytes |
| `DafsaSize.AbsorbedOnce` | conan/recipes/tldregistry/chromium/net/tools/dafsa/make_dafsa.py:284-297 | a node joined into its parent has no other parent and is no root |
| `DafsaSize.MergeBound` | conan/recipes/tldregistry/chromium/net/tools/dafsa/make_dafsa.py:284-297 | the replacements that no parent absorbed cost no more than the nodes they stand for, at every stage of the walk |
| `DafsaSize.LiveIsUnabsorbed` | conan/recipes/tldregistry/chromium/net/tools/dafsa/make_dafsa.py:284-301 | the nodes that the result reaches are replacements that no parent absorbed |
| `DafsaSize.MergedSize` | conan/recipes/tldregistry/chromium/net/tools/dafsa/make_dafsa.py:267-301 | joining labels leaves no more bytes among the reachable nodes |
| `DafsaRepeats.RepetitionSurvives` | conan/recipes/tldregistry/chromium/net/tools/dafsa/make_dafsa.py:304-322 | a repeated word reaches the encoder iff the first node of its value in the walk over the trie carries it |
| `DafsaOrder.SourcesInOrder` | conan/recipes/tldregistry/chromium/net/tools/dafsa/make_dafsa.py:240-264 | the source list of the reversed chains has the last characters of the words, in their order |
| `DafsaOrder.JoinedLists` | conan/recipes/tldregistry/chromium/net/tools/dafsa/make_dafsa.py:461-465 | after the first reversal and joining, the source list stands for the words one by one, and every node for a prefix |
| `DafsaOrder.TurnIsFirst` | conan/recipes/tldregistry/chromium/net/tools/dafsa/make_dafsa.py:240-264 | a node is first visited from the first word that begins with its prefix |
| `DafsaOrder.SiblingsInOrder` | conan/recipes/tldregistry/chromium/net/tools/dafsa/make_dafsa.py:240-264 | the trie lists children by the first word that begins with their prefix |
| `DafsaOrder.ValuesWalked` | conan/recipes/tldregistry/chromium/net/tools/dafsa/make_dafsa.py:304-322 | a depth-first walk meets the words of the trie in that order |
| `DafsaOrder.SinksAreOccurrences` | conan/recipes/tldregistry/chromium/net/tools/dafsa/make_dafsa.py:253-260 | a value lists the sink as often as its word occurs |
| `DafsaOrder.RepeatsIff` | conan/recipes/tldregistry/chromium/net/tools/dafsa/make_dafsa.py:304-322 | the trie repeats at the first node of a value iff the first word of that value in the walk occurs twice in the list |
| `DafsaOrder.OrderDecides` | conan/recipes/tldregistry/chromium/net/tools/dafsa/make_dafsa.py:304-322 | the words a1, a1, b1 repeat the first word of their value, and b1, a1, a1 do not |
| `DafsaLookup.GetNextOffset` | conan/recipes/tldregistry/chromium/net/base/lookup_string_in_fixed_set.cc:19-44 | reads the next target, reports the end exactly after the last one, and stays inside the image |
| `DafsaLookup.CharacterTests` | conan/recipes/tldregistry/chromium/net/base/lookup_string_in_fixed_set.cc:47-69 | on a byte of a label the three tests say exactly: last in label, equal to the key, a return value |
| `DafsaLookup.OneChildMatches` | conan/recipes/tldregistry/chromium/net/base/lookup_string_in_fixed_set.cc:114-141 | the child whose first character matches is the only one that can go on |
| `DafsaLookup.FindChild` | conan/recipes/tldregistry/chromium/net/base/lookup_string_in_fixed_set.cc:111-141 | finds the child with that first character iff there is one, reading inside the image |
| `DafsaLookup.FindReturnValue` | conan/recipes/tldregistry/chromium/net/base/lookup_string_in_fixed_set.cc:165-176 | finds a return value among the children iff there is one |
| `DafsaLookup.FixedSetIncrementalLookup.constructor` | conan/recipes/tldregistry/chromium/net/base/lookup_string_in_fixed_set.cc:73-75 | starts where exactly the words of the graph follow |
| `DafsaLookup.FixedSetIncrementalLookup.AdvanceInText` | conan/recipes/tldregistry/chromium/net/base/lookup_string_in_fixed_set.cc:96-109 | inside a label: what can follow afterwards is what could follow that character |
| `DafsaLookup.FixedSetIncrementalLookup.AdvanceAtLinks` | conan/recipes/tldregistry/chromium/net/base/lookup_string_in_fixed_set.cc:110-141 | at the links of a node: the same, without backtracking |
| `DafsaLookup.FixedSetIncrementalLookup.Advance` | conan/recipes/tldregistry/chromium/net/base/lookup_string_in_fixed_set.cc:85-149 | true iff some word goes on with what has been read; afterwards exactly the continuations of that remain |
| `DafsaLookup.FixedSetIncrementalLookup.GetResultForCurrentSequence` | conan/recipes/tldregistry/chromium/net/base/lookup_string_in_fixed_set.cc:151-179 | the return value that can follow here, or not found iff none can |
| `DafsaLookup.LookupStringInFixedSet` | conan/recipes/tldregistry/chromium/net/base/lookup_string_in_fixed_set.cc:181-197 | returns a value that the graph lists for the key, or not found iff it lists none; every read is inside the image |
| `DafsaCompile.PassesAreGood` | conan/recipes/tldregistry/chromium/net/tools/dafsa/make_dafsa.py:461-465 | the five passes in their order give a graph that lookup can walk without backtracking |
| `DafsaCompile.PassesSpell` | conan/recipes/tldregistry/chromium/net/tools/dafsa/make_dafsa.py:461-465 | the five passes in their order preserve the set of words |
| `DafsaCompile.PassesFit` | conan/recipes/tldregistry/chromium/net/tools/dafsa/make_dafsa.py:461-465 | for any good words the five passes leave a footprint of at most seven bytes a character |
| `DafsaCompile.PassesRepeat` | conan/recipes/tldregistry/chromium/net/tools/dafsa/make_dafsa.py:461-465 | a repeated sink is left for the encoder iff the first word of some value, in the walk over the trie of the list, occurs twice |
| `DafsaCompile.Compress` | conan/recipes/tldregistry/chromium/net/tools/dafsa/make_dafsa.py:464-465 | runs the five passes in their order, each graph tied to the one before; the result is fit for lookup, spells exactly the words, has a footprint of at most seven bytes a character, and repeats a sink iff the first word of some value is repeated |
| `DafsaCompile.WordsToBytes` | conan/recipes/tldregistry/chromium/net/tools/dafsa/make_dafsa.py:461-466 | bad words are refused with their own errors; good words succeed iff no word that comes first for its value is repeated and all links of the run reach, which they do below 2^21 / 7 characters; then the bytes are those of the run, at most seven a character, and lay out a graph of exactly the words; an error says which of the two it was |
| `DafsaCompile.ShortListReaches` | conan/recipes/tldregistry/chromium/net/tools/dafsa/make_dafsa.py:426-466 | for lists below 2^21 / 7 characters all links reach, in whatever topological order the graph is written |
| `DafsaCompile.DistinctKeysNeverRepeat` | conan/recipes/tldregistry/chromium/net/tools/dafsa/make_dafsa.py:461-466 | words with different keys are never repeated |
| `DafsaCompile.FoundIsListed` | conan/recipes/tldregistry/chromium/net/base/lookup_string_in_fixed_set.cc:181-197 | what lookup finds in the graph is what the word list says |
| `DafsaCompile.CompileAndLookup` | conan/recipes/tldregistry/chromium/net/tools/dafsa/make_dafsa.py:426-466 | for any word list and any key: the value listed for the key, not found iff it is not listed; good words below 2^21 / 7 characters compile iff no word that comes first for its value is repeated, and otherwise fail with the assertion; with distinct keys the value is unique and the only failure, of longer lists, is a link that does not reach; for every list of good words success is decided as in `WordsToBytes` |
| `Tld.IsTld` | conan/recipes/tldregistry/src/tldregistry.cpp:5-8 | on the compiled bytes: true iff the domain is listed with the value of a plain rule |
| `Tld.RulesByDigit` | conan/recipes/tldregistry/src/tldregistry.cpp:5-8 | with distinct keys, a domain listed with a digit is a rule iff that digit is 0, and none with the digits of an exception, a wildcard or a private rule |
| `Tld.UnlistedIsNoRule` | conan/recipes/tldregistry/src/tldregistry.cpp:5-8 | a domain that is not listed is no rule |
| `Tld.GetTld` | conan/recipes/tldregistry/src/tldregistry.cpp:10-22 | the longest suffix at a label boundary that is a rule, or none iff no such suffix is a rule |
| `Tld.StripMeans` | conan/recipes/tldregistry/src/tldregistry.cpp:25-30 | only dots are stripped, and none is left at either end |
| `Tld.StripDots` | conan/recipes/tldregistry/src/tldregistry.cpp:25-30 | the two loops compute the stripped domain |
| `Tld.RFind` | conan/recipes/tldregistry/src/tldregistry.cpp:40 | the last dot not behind a position, for any `size_t` position |
| `Tld.SuffixPosition` | conan/recipes/tldregistry/src/tldregistry.cpp:31-38 | two characters in front of the registry suffix, or the wrapped-around position iff the whole domain is a rule |
| `Tld.CutLabels` | conan/recipes/tldregistry/src/tldregistry.cpp:39-46 | keeps the nearest labels, as many as asked for or as there are; from a wrapped-around position it counts labels of the rule itself |
| `Tld.ReduceDomain` | conan/recipes/tldregistry/src/tldregistry.cpp:24-47 | the suffix plus the nearest min(n, available) labels iff not (the domain is itself a rule with at least n dots and n > 0); and in that case exactly the last n labels |
| `Tld.RuleLosesLabel` | conan/recipes/tldregistry/src/tldregistry.cpp:32-46 | a concrete rule and request for which the answer is not the suffix plus labels |
| `CidrBlocks.PrecedesTotal` | common/include/common/cidr_range.h:434-449 | the order on ranges is total |
| `CidrBlocks.PrecedesStrict` | common/include/common/cidr_range.h:434-449 | and strict |
| `CidrBlocks.PrecedesTransitive` | common/include/common/cidr_range.h:434-449 | and transitive |
| `CidrBlocks.ContainerFirst` | common/include/common/cidr_range.h:434-438 | a range that contains another does not come after it |
| `CidrBlocks.BetweenIsContained` | common/include/common/cidr_range.h:507-521 | what lies between a range and one inside it lies inside it |
| `CidrBlocks.NestedOrDisjoint` | common/include/common/cidr_range.h:149-162 | two ranges that share an address are nested |
| `CidrBlocks.ContainsMeans` | common/include/common/cidr_range.h:149-162 | one range contains another iff every address of the other is one of its own |
| `CidrBlocks.DisjointMeans` | common/include/common/cidr_range.h:514-518 | two ranges are disjoint iff no address lies in both |
| `CidrBlocks.Halves` | common/include/common/cidr_range.h:200-222 | what lies properly inside a range lies in exactly one of its halves |
| `CidrRanges.MakeMask` | common/include/common/cidr_range.h:127-137 | the mask bytes of a prefix length, for every length |
| `CidrRanges.Init` | common/include/common/cidr_range.h:120-141 | fails iff the prefix is longer than the address; otherwise the range of all addresses with that prefix, its host bits cleared |
| `CidrRanges.HeldEverywhere` | common/include/common/cidr_range.h:153-160 | the byte tests hold everywhere iff one bit prefix extends the other |
| `CidrRanges.ContainsRange` | common/include/common/cidr_range.h:149-162 | true iff every address of the argument is in the range; false across families |
| `CidrRanges.ContainsAddress` | common/include/common/cidr_range.h:169-180 | true iff the address has the prefix |
| `CidrRanges.LessThan` | common/include/common/cidr_range.h:439-449 | the byte comparison is the order on ranges |
| `CidrBlocks.PrecedesByAddress` | common/include/common/cidr_range.h:439-449 | within a family, that order is the order of the first addresses as numbers, and of the prefix lengths for equal ones |
| `CidrRanges.Split` | common/include/common/cidr_range.h:200-222 | none iff the range is a single address; otherwise its two halves |
| `CidrExclude.Classify` | common/include/common/cidr_range.h:270-281 | the scan decides between inside an exclusion, around one, and apart from all |
| `CidrExclude.Skip` | common/include/common/cidr_range.h:282-284 | dropping an excluded range keeps the invariant of the worklist |
| `CidrExclude.Divide` | common/include/common/cidr_range.h:285-290 | replacing a range by its halves keeps it |
| `CidrExclude.Keep` | common/include/common/cidr_range.h:291-293 | moving an untouched range to the result keeps it |
| `CidrExclude.ExcludeNext` | common/include/common/cidr_range.h:264-294 | one round drops, splits or keeps the first range, keeps the invariant and lightens the worklist |
| `CidrExclude.Exclude` | common/include/common/cidr_range.h:262-296 | terminates on every input; covers exactly the addresses of the originals that are in no exclusion; every block inside an original and apart from the exclusions lies in one result block; for disjoint originals the result is disjoint and strictly sorted; splitting never fails |
| `CidrRangeSets.NotAWeakOrder` | common/include/common/cidr_range.h:522-526 | the modified comparison is not a strict weak order on all ranges |
| `CidrRangeSets.LessOnAntichain` | common/include/common/cidr_range.h:502-526 | on pairwise disjoint sorted ranges it is the order of the list |
| `CidrRangeSets.LessIsPrefix` | common/include/common/cidr_range.h:502-526 | for any probe, the stored ranges below it are a prefix |
| `CidrRangeSets.GreaterIsSuffix` | common/include/common/cidr_range.h:502-526 | and those above it a suffix |
| `CidrRangeSets.EquivalentIsNested` | common/include/common/cidr_range.h:514-518 | neither is less iff the two ranges share an address |
| `CidrRangeSets.ModifiedLess` | common/include/common/cidr_range.h:523-525 | computes that comparison |
| `CidrRangeSets.LowerBound` | common/include/common/cidr_range.h:467 | binary search from any probe order: exactly the ranges below the probe are in front of the result |
| `CidrRangeSets.UpperBound` | common/include/common/cidr_range.h:467 | exactly the ranges above the probe are from the result on |
| `CidrRangeSets.FindEqualRange` | common/include/common/cidr_range.h:467 | the segment of the stored ranges that are nested with the probe |
| `CidrRangeSets.CidrRangeSet.EraseInside` | common/include/common/cidr_range.h:468-474 | the loop ends; it erases exactly what the new range contains, or returns false having erased nothing |
| `CidrRangeSets.CidrRangeSet.Insert` | common/include/common/cidr_range.h:466-477 | keeps the set disjoint and sorted; false, and unchanged, iff a stored range properly contains the new one; otherwise the new range replaces everything inside it |
| `CidrRangeSets.CidrRangeSet.Includes` | common/include/common/cidr_range.h:483-488 | true iff some range ever inserted since the last clear contains the argument |
| `CidrRangeSets.CidrRangeSet.Clear` | common/include/common/cidr_range.h:493-495 | forgets every range |
| `AnyOf.StepKeeps` | common/include/common/parallel.h:25-83 | every atomic step keeps the invariant |
| `AnyOf.AnyOfIsSafe` | common/include/common/parallel.h:25-83 | in every interleaving: the awaiter continues at most once, and has continued exactly when it has arrived and a value matched or all tasks finished; the result is the first match in lock order, and none only if no value matches |
| `AnyOf.SharedState.Finish` | common/include/common/parallel.h:33-46 | a completion does what its step does and resumes exactly when the awaiter is to continue |
| `AnyOf.SharedState.AwaitReady` | common/include/common/parallel.h:66-69 | ready exactly when the awaiter continues at once |
| `AnyOf.SharedState.AwaitSuspend` | common/include/common/parallel.h:71-78 | resumes exactly when the outcome was settled in between |
| `AnyOf.SharedState.AwaitResume` | common/include/common/parallel.h:80-83 | hands over the stored result |
| `AllOf.StepKeeps` | common/include/common/parallel.h:155-197 | every atomic step keeps the invariant |
| `AllOf.AllOfIsSafe` | common/include/common/parallel.h:155-197 | in every interleaving: the awaiter continues at most once, exactly when it has arrived and all tasks finished, and gets all values in completion order |
| `AllOf.SharedState.Finish` | common/include/common/parallel.h:158-166 | a completion does what its step does and resumes exactly when it was the last |
| `AllOf.SharedState.AwaitReady` | common/include/common/parallel.h:180-183 | ready exactly when the awaiter continues at once |
| `AllOf.SharedState.AwaitSuspend` | common/include/common/parallel.h:185-192 | resumes exactly when the last task finished in between |
| `AllOf.SharedState.AwaitResume` | common/include/common/parallel.h:194-197 | hands over the values |
| `Lru.LruInclusion` | common/include/common/cache.h:101-177 | two caches of capacities c <= d fed the same insertions, lookups and erasures: the smaller list is always a subsequence of the larger, with equal values |
| `Lru.LargerNeverMisses` | common/include/common/cache.h:132-141 | so a larger capacity never turns a hit into a miss |
| `LruIdeal.RunIsIdeal` | common/include/common/cache.h:101-177 | in every run the list is, most recent first, a map from each key to its value and the number of its last use, from which a full cache drops the key with the least number |
| `LruIdeal.ListsOnce` | common/include/common/cache.h:101-141 | a map lists in one way only, so that pins order and values |
| `LruIdeal.HitsAndEvictions` | common/include/common/cache.h:101-141 | after any run a lookup answers from that map, and inserting a key evicts iff it is new and the map is full, and then a key that was used before all others |
| `LruIdeal.IdealNotes` | common/include/common/cache.h:101-141 | the number in the map is that of the last insertion or hit of the key, and the value that of its last insertion |
| `Lru.TakenOut` | common/include/common/cache.h:170-177 | taking an element and its key out keeps list and index in agreement and removes exactly that entry |
| `Lru.LruCache.constructor` | common/include/common/cache.h:82-84 | starts empty |
| `Lru.LruCache.Insert` | common/include/common/cache.h:101-122 | the entry becomes the most recent, a full cache drops the least recent and tells which; true iff the key is new |
| `Lru.LruCache.Get` | common/include/common/cache.h:132-141 | the value stored under the key, if any; a hit puts the entry at the front and leaves the others as they were, a miss changes nothing |
| `Lru.LruCache.Erase` | common/include/common/cache.h:170-177 | removes exactly that key |
| `Lru.LruCache.Clear` | common/include/common/cache.h:182-186 | removes everything |
| `Lru.LruCache.SetCapacity` | common/include/common/cache.h:207-217 | keeps the most recent entries that fit |
| `LruTimeout.SameKeys` | common/include/common/cache.h:258-346 | in every run with a steady clock, with or without auto-update: the keys with a deadline are those of the list and, apart from them, those that a shrink dropped and nothing inserted, erased, expired or cleared since; so the two sets of keys agree iff nothing is leaked, and nothing is as long as the capacity never drops below the size |
| `LruTimeout.ShrinkLeaks` | common/include/common/cache.h:207-217 | from equal keys, a new capacity keeps them equal iff it is not below the number of entries |
| `LruTimeout.ShrinkingLeaks` | common/include/common/cache.h:207-217 | a shrinking run after which a deadline is left without an entry |
| `LruTimeout.RunsAreConsistent` | common/include/common/cache.h:258-346 | in every run, with or without auto-update, a cached key has the deadline of its last insertion or hit, and a remembered key that is not cached has expired |
| `LruTimeout.HitIffFresh` | common/include/common/cache.h:286-302 | after any run with auto-update, a lookup hits iff the key was not erased or evicted since its last insertion or hit and that plus its timeout is not before now |
| `LruTimeoutOrder.ListedByUse` | common/include/common/cache.h:258-346 | in every timed run, with or without auto-update, the list is in the order of the last insertion or hit |
| `LruTimeoutOrder.EvictsLeastRecent` | common/include/common/cache.h:101-122 | so a key evicted after any timed run was used before every other key that is still cached, and only a full cache evicts, for a key that it does not hold |
| `LruTimeout.StartedMeans` | common/include/common/cache.h:262-282 | an insertion that is to preserve a longer timeout gives the larger of the two, any other its own; the deadline is that much after now, and no other key changes |
| `LruTimeout.Timeouts.Emplace` | common/include/common/cache.h:280-282 | files a deadline behind all that are not later, keeping multimap and index in agreement |
| `LruTimeout.Timeouts.Start` | common/include/common/cache.h:272-282 | the key gets the larger of both timeouts if that is asked for and it has one, else the given one, counted from now; nothing else changes |
| `LruTimeout.Timeouts.Restart` | common/include/common/cache.h:293-300 | the deadline of a hit starts again with its own timeout |
| `LruTimeout.Timeouts.Erase` | common/include/common/cache.h:315-319 | drops the deadline of a key |
| `LruTimeout.Timeouts.OnKeyEvicted` | common/include/common/cache.h:341-346 | drops the deadline of an evicted key |
| `LruTimeout.LruTimeoutCache.constructor` | common/include/common/cache.h:245-249 | starts empty |
| `LruTimeout.LruTimeoutCache.Update` | common/include/common/cache.h:326-333 | drops exactly the entries whose deadline has passed |
| `LruTimeout.LruTimeoutCache.Insert` | common/include/common/cache.h:267-284 | the timed cache after an insertion, list and deadlines together; the deadline is now plus the larger of both timeouts if asked for, else plus the given one; true iff the key was not cached |
| `LruTimeout.LruTimeoutCache.InsertDefault` | common/include/common/cache.h:258-260 | an insertion without a timeout gives that of the cache, whatever the key had |
| `LruTimeout.LruTimeoutCache.Get` | common/include/common/cache.h:286-302 | the value, if it has not expired, and the timed cache after a lookup; a cached key always has a deadline |
| `LruTimeout.LruTimeoutCache.Erase` | common/include/common/cache.h:310-321 | removes the key from list and deadlines |
| `LruTimeout.LruTimeoutCache.Clear` | common/include/common/cache.h:304-308 | removes everything |
| `LruTimeout.LruTimeoutCache.SetCapacity` | common/include/common/cache.h:207-217 | shortens the list but not the deadlines |
| `Http3Send.RunsAreSound` | http/http3.cpp:749-1058 | in every run the read offset is inside the buffer and no byte appears from nowhere |
| `Http3Send.ConservedIff` | http/http3.cpp:749-1058 | in every run, acknowledged, in-flight and unsent bytes are what was submitted, in order, iff no acknowledgement reached past what was handed out |
| `Http3Send.NextLoses` | http/http3.cpp:1034-1051 | an acknowledgement loses exactly the bytes by which it reaches past the read offset; no other step loses any |
| `Http3Send.EarlyAckLoses` | http/http3.cpp:1034-1051 | a run in which a submitted byte is neither handed out nor kept |
| `Http3Send.EofMeansAllHanded` | http/http3.cpp:993-1018 | stated on the calls so far: the end is raised iff nothing is unsent and the last push ended the body, or trailers follow and nothing is read; waiting is asked for iff nothing is unsent and neither holds; the bytes are the next ones; with the end, all that was pushed has been handed out |
| `Http3Send.FlagsFollowEvents` | http/http3.cpp:720-755 | in every run the end flag is what the last push said and the trailers flag is up iff trailers were submitted; the bytes submitted are those of all pushes in order |
| `Http3Send.FindRoom` | http/http3.cpp:954-971 | the room of a stream is what the window leaves besides the unsent bytes, and nothing once they overflow it |
| `Http3Send.PushWithinCapacity` | http/http3.cpp:960-968 | a push keeps the unsent bytes within the window iff it is no larger than the capacity, and uses up just that much of it |
| `Http3Send.Http3Session.PushData` | http/http3.cpp:749-792 | appends the chunk to the bytes and makes the end flag what the call says, up or down; an unknown stream is refused |
| `Http3Send.Http3Session.OnReadData` | http/http3.cpp:974-1019 | advances the read offset by the bytes peeked and answers for them; an unknown stream is a failure |
| `Http3Send.Http3Session.OnAckedStreamData` | http/http3.cpp:1022-1058 | drains at most the buffer and moves the read offset back by at most itself |
| `Http3Send.Http3Session.GetStreamSendCapacity` | http/http3.cpp:954-971 | capacity and unsent bytes together are the smaller window, or the capacity is zero when the unsent bytes overflow it; the whole of that window, which is none, for a stream the transport does not know |
| `Routing.PutMetrics` | common/network_monitor.cpp:497-509 | replacing or appending a route is an update of the map from (prefix, interface) to metric |
| `Routing.WithoutMetrics` | common/network_monitor.cpp:523-525 | erasing routes is a removal from that map |
| `Routing.SortedMeans` | common/network_monitor_impl.h:31-36 | a table is sorted by operator< iff longer prefixes come first and, among equally long ones, lower metrics |
| `Routing.FirstMatchIsBest` | common/network_monitor_impl.h:16-36 | so the first route that contains an address has the longest prefix of all that do, and the lowest metric among those |
| `Routing.DefaultHoldsAll` | common/network_monitor_impl.h:38-40 | a valid prefix is that of a default route iff it contains every address of its family |
| `Routing.FirstIsDefault` | common/network_monitor.cpp:349-354 | in any sorted table the first default route with an interface that is not ignored has the lowest metric of all such routes; none is found iff there is none |
| `Routing.DefaultOfMap` | common/network_monitor.cpp:349-354 | without duplicate keys that is the default of the map from (prefix, interface) to metric |
| `Routing.StepKeeps` | common/network_monitor.cpp:475-532 | every message keeps both tables sorted and free of duplicates, with the contents of the simple maps |
| `Routing.RunsKeep` | common/network_monitor.cpp:475-532 | in every run whose reloads bring each key once, the tables hold what the simple maps hold |
| `Routing.RunsStayCurrent` | common/network_monitor.cpp:475-532 | in every run, whatever reloads bring, both tables have longer prefixes and lower metrics first and the cached pair is, for each family, a best route under what the last update ignored |
| `Routing.RunsMatchLongest` | common/network_monitor.cpp:475-532 | in every run the first match for any address in either table is a longest match of lowest metric |
| `Routing.RunsRefine` | common/network_monitor.cpp:475-532 | in every run whose reloads bring each key once, the cached pair is the pair of defaults of the simple maps after the last update |
| `Routing.FlagMeansChanged` | common/network_monitor.cpp:482-486 | in every run the flag is up iff some update since the last reset changed the cached pair |
| `Routing.SortRoutes` | common/network_monitor_impl.h:31-36 | a permutation with longer prefixes first and, among equally long ones, lower metrics first |
| `Routing.FindDefaultRoute` | common/network_monitor.cpp:349-354 | the scan finds the first eligible route |
| `Routing.EraseRoutes` | common/network_monitor.cpp:523-525 | erases every route of the key and no other |
| `Routing.LinuxRoutingTable.SortAndUpdateCache` | common/network_monitor.cpp:475-487 | puts longer prefixes and lower metrics first in both tables, caches their defaults and raises the flag iff the pair changed |
| `Routing.LinuxRoutingTable.HandleNewRoute` | common/network_monitor.cpp:489-512 | one step for a new route; a message that cannot be parsed changes nothing |
| `Routing.LinuxRoutingTable.HandleDelRoute` | common/network_monitor.cpp:514-532 | one step for a deleted route |
| `Routing.LinuxRoutingTable.Replace` | common/network_monitor.cpp:589-591 | one step for a reload |
| `Routing.LinuxRoutingTable.HasDefaultChangedAndReset` | common/network_monitor.cpp:616-620 | returns the flag and lowers it |
| `Http1Chunked.HexRoundTrip` | http/http1.cpp:422-424 | the size in a chunk header reads back as the size, and is written without a leading zero |
| `Http1Chunked.WrittenAs` | http/http1.cpp:422-424 | digits are written as 0 to 9 and A to F, and lines end in CR LF |
| `Http1Chunked.HeaderFits` | http/http1.cpp:422-424 | for any 64-bit length the header fits the 64 bytes kept for it |
| `Http1Chunked.ChunkReads` | http/http1.cpp:429-432 | a chunk on the wire reads back as that chunk, whatever follows |
| `Http1Chunked.ZeroReads` | http/http1.cpp:429-441 | a zero chunk ends the body iff a blank line follows |
| `Http1Chunked.WireReads` | http/http1.cpp:421-442 | for any calls: the output reads back chunk by chunk and to its end iff no call before the last was empty, and not at all otherwise |
| `Http1Chunked.BodyOutput` | http/http1.cpp:406-465 | for any calls on a single chunked stream: the output is the wire form and the stream is completed once, at the end |
| `Http1Chunked.BodyRoundTrip` | http/http1.cpp:406-465 | the receiver gets the pieces that were sent, reaches the end exactly at the end of the output, and the stream is completed once |
| `Http1Chunked.PlainBody` | http/http1.cpp:443-462 | without a length, any calls put out just their bytes, and the call that says so ends the stream |
| `Http1Chunked.CountedBodyOfServer` | http/http1.cpp:447-458 | with a length, the calls of a server up to the one that fills it put out their bytes and finish the stream; later ones are refused, and the end flag of the calls does not matter |
| `Http1Chunked.CountedBodyOfClient` | http/http1.cpp:447-461 | with a length, any calls of a client put out all their bytes, and the request counts as sent once the length is reached |
| `Http1Chunked.NeededIsLeast` | http/http1.cpp:447-450 | the call that fills the length is the first with which the bytes are enough |
| `Http1Chunked.FinishedIsGoneIff` | http/http1.cpp:406-458 | a server that ends a body reports that stream as finished and lets go of its first stream; the finished one is gone iff it was the only one |
| `Http1Chunked.Http1Session.SendBody` | http/http1.cpp:406-465 | accepted iff there is a stream and the identifier is that of the last one of a server or the first one of a client; then exactly the output, flags and completion of one call |
| `Http1Chunked.Http1Session.SendChunk` | http/http1.cpp:428-442 | the output of a chunk, with the zero chunk at the end sent by a call of its own |
| `Http1Chunked.Http1Session.Emit` | http/http1.cpp:419-451 | chunked, counted and plain bodies |
| `Cesu8.Cesu8Len` | common/cesu8.cpp:10-52 | the loop counts what the byte-by-byte model counts |
| `Cesu8.Utf8ToCesu8` | common/cesu8.cpp:54-120 | the loop puts out what the byte-by-byte model puts out |
| `Cesu8.LengthBound` | common/cesu8.cpp:10-120 | for every byte string the announced length is at least the length of the output, and equal iff there is no complete overlong form of three or four bytes |
| `Cesu8.PairOfSurrogates` | common/cesu8.cpp:73-87 | a character beyond 0xFFFF leaves as its two surrogates |
| `Cesu8.RoundTrip` | common/cesu8.cpp:54-120 | for every sequence of Unicode scalar values the output is its CESU-8 form, which reads back as the same sequence |
| `Cesu8Converted.OutputIs` | common/cesu8.cpp:54-120 | for every byte string the output is the conversion of its pieces one by one: a complete sequence gives the CESU-8 form of the number it spells, an interrupted one and every byte that starts none a replacement, an unfinished one at the end nothing |
| `Cesu8Converted.BytesByBits` | common/cesu8.cpp:60-110 | the kind of a byte is the number of its leading ones |
| `Cesu8Converted.ReplacementIsFFFD` | common/cesu8.cpp:91-94 | the replacement is U+FFFD in UTF-8 |
| `Cesu8.AlwaysReads` | common/cesu8.cpp:54-120 | for every byte string a reader that takes overlong forms reads the output |
| `Cesu8.Cesu8Iff` | common/cesu8.cpp:54-120 | for every byte string the output is CESU-8, the bytes of some code units, iff no complete sequence of the input spells a number below 0x80 |
| `Cesu8.OverlongStays` | common/cesu8.cpp:54-120 | C0 80 leaves as C0 80, which is not CESU-8 |
| `Cesu8.BeyondUnicode` | common/cesu8.cpp:73-87 | four bytes that spell a number beyond 0x10FFFF leave as a pair of surrogates made of the last twenty bits |
| `Cesu8.LargestSpelled` | common/cesu8.cpp:54-120 | the largest number is spelled by F7 BF BF BF: 0x1FFFFF |
| `Base64.SymbolValue` | common/base64.cpp:13-71 | in both alphabets the basis inverts the table |
| `Base64.BasisKnows` | common/base64.cpp:30-71 | the basis knows exactly the symbols of the alphabet |
| `Base64.StandardAlphabets` | common/base64.cpp:47-48 | both tables are those of RFC 4648, written out, and the padding is the equals sign |
| `Base64.SextetsRoundTrip` | common/base64.cpp:79-102 | regrouping bytes into six-bit values and back is the identity |
| `Base64Bits.SextetsKeepBits` | common/base64.cpp:79-101 | the six-bit values, one behind the other, have the bits of the bytes, filled up with zeros |
| `Base64Bits.OctetsKeepBits` | common/base64.cpp:130-144 | the bytes have the bits of the six-bit values, without those that do not fill a byte |
| `Base64Bits.EncodedByBits` | common/base64.cpp:73-102 | symbol i is the one that the standard alphabet gives to bits 6i to 6i + 5 of the bytes, filled up with zeros |
| `Base64Bits.DecodedByBits` | common/base64.cpp:112-145 | a text whose bytes in front of the padding stand for six-bit values in the standard alphabet is accepted iff their number is not 1 mod 4, and gives the bytes with the bits of those values |
| `Base64Bits.AcceptedIsSpelled` | common/base64.cpp:116-127 | every accepted text is such a text |
| `Base64.EncodedSize` | common/include/common/base64.h:17-20 | the encoder emits exactly the announced number of symbols |
| `Base64.PaddedToFour` | common/base64.cpp:87-101 | the default form is filled up to groups of four by one or two equals signs at the end; the other has no padding |
| `Base64.EncodeToBase64` | common/base64.cpp:73-110 | the symbols of the regrouped bytes, padded in the default alphabet only; their meaning bit by bit is EncodedByBits |
| `Base64.ValidLength` | common/base64.cpp:116-124 | the length up to the padding iff everything in front of it is in the alphabet |
| `Base64.DecodeBase64` | common/base64.cpp:112-145 | accepts a byte string iff the part in front of the first padding is all alphabet and not of length 1 mod 4, and then returns its bytes; their meaning bit by bit is DecodedByBits |
| `Base64.RoundTrip` | common/base64.cpp:73-145 | for every byte string and both alphabets decoding undoes encoding |

## Left out

- DafsaCompile.WordsToBytes: for lists of 2^21 / 7 characters or more, whether all links reach is decided on the graph and the order in which it is written, not on the words.
- DafsaCompile.CompileAndLookup: for words with equal keys and different values it states that some listed value is found, not which.
- Routing.RunsKeep: with a reload that brings a key twice there is no map to compare with; `RunsStayCurrent` covers those runs.
- DafsaLookup.LookupStringInFixedSet: bytes that no run of the compiler produced are not covered.
- Tld.ReduceDomain: requires a domain shorter than 2^64 - 1 characters, as any string is.
- CidrRanges.Init: addresses are bytes; parsing and printing them belongs to foreign functions.
- Lru.LruCache.Insert: requires a positive capacity for a new key, as the assertion of the code does.
- Http3Send.Http3Session.OnReadData: reads and acknowledgements are called only once a buffer exists, as the session registers its callbacks; failures of the foreign buffer calls are not modelled.
- `parse_gperf`, `to_cxx` and the command line of the compiler: reading and printing text.
- `TimeoutCache`, `make_lru`, `iterate_values` and the size accessors: easier cousins of what is modelled.
- Locks, iterator lifetimes and coroutine frames: operations are atomic steps on values.
- Trailers over HTTP/1 and bodies of several pipelined streams: one call is modelled as the code has it, whole bodies are those of a single stream.
- Netlink messages, sockets, interface names and the kinds of interfaces: a message arrives as a parsed route or as nothing.
- Memory limits, allocation failure, logging and metrics.
- HTTP/2, URLs, headers, sockets, firewalls, certificates and the other wrappers: they would add only easy members.

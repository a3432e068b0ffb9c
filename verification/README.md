# An IP-prefix database, modelled and proved

The repository serves IP allocations, routes and geofeeds from an immutable file. Every answer
comes from an index built ahead of time: Patricia tries flattened to bytes, buckets of sorted
byte keys, materialized summaries, a response cache in front of them. The model follows those
indexes byte by byte and proves that each of them gives the answer a plain scan over the source
records would give.

Addresses have two readings that are proved to agree: sixteen bytes (an IPv4 address in the last
four) and a number below 2^32 or 2^128. Prefixes are bit strings in the tries and aligned blocks
in the indexes. CIDR notation is that of section 3.1 of RFC 4632, and longest-match forwarding
that of section 5.1 of RFC 4632.

| module | what it models |
|---|---|
| `Bytes`, `Words`, `Addresses` | numbers, bits and bytes; the mask, common-prefix and borrow loops |
| `Patricia` | the trie as a value: insertion, the walk, longest match, size |
| `TrieBuilder` | the builder both selectors share: a growing node array, updated in place |
| `RouteLPM`, `SelectionLPM` | encoding a trie into bytes and walking it there |
| `Cover` | the greedy CIDR cover of a range |
| `Sources` | source records and the brute-force answers over them |
| `PointIndex`, `Overlap`, `RangePages`, `IndexWriter` | the sorted-key indexes: built, queried, paged |
| `Mapped`, `MappedIndex`, `MappedLookup` | what storing IPv4-mapped addresses as their image does to blocks, queries and lookups |
| `RouteSelector`, `RangeSelector`, `Lookup` | from indexes to selectors to the two forms of lookup |
| `Answers`, `RouteListings` | the whole way from source records to routes, allocations and pages |
| `Paging`, `AsnPages` | cursor pages and numbered pages |
| `ResponseCache`, `CacheUse` | one LRU shard and all shards; the order of use told from a history of calls |
| `CacheProtocol`, `CacheRuns`, `CacheCalls` | every interleaving of the calls, whole runs, and what each call comes to in them |
| `Facets` | tallies, the ten greatest of one, and what adding up such tens keeps |
| `Summaries`, `SummaryCounts`, `SummaryBucket` | the summary keys, the counting, and the two together: written and read back |
| `SummaryMeaning` | what a summary says of the records themselves, told without the counting |
| `Records` | the varint record codec and its partial decoders |
| `Formats`, `RecordBytes` | the bytes of keys, files, cursors and records, place by place and number by number |

The main results:

- **Selectors are exact.** A trie built from any ranges (for IPv4-mapped ones see below), in any
  order, encoded and looked up in its bytes, returns the record that is least by range width, then
  longest component, then lowest ID among all that contain the address, and zero exactly when none
  does. The route selector returns the IDs of the longest routes in ascending order. Writing one
  fails only for an input of 2^31 keys or pieces: the route selector's groups, laid end to end, are
  the scan of the index.
- **IPv4-mapped addresses** (section 2.5.5.2 of RFC 4291) are stored as their image: a piece that
  begins in ::ffff:0:0/96 gets the key of a block of the lowest IPv6 addresses. Point queries are
  therefore right exactly when every IPv6 range keeps clear of ::ffff:0:0/96 or goes around it in
  one piece; a record that does neither is found where it is not, or twice. The range selector and
  the forms of lookup are proved for such ranges. None is ever missed, though, so range pages and
  the allocation around a prefix, which filter what they find, are right for all ranges. Imported
  routes are never mapped, and the route results are for all of them.
- **Compact and full lookup.** Around an address that is not mapped they always select the same
  routes. Around a mapped one they do exactly when a route of 96 bits or more is around its image
  or none of 81 to 95 bits is around the address or its image; a route and an address where they
  part are given. They select the same allocation (or geofeed) exactly when no match behind the
  first 64 of the index is narrower than all of those; around every address with two more behind
  it, IPv4 or IPv6, there are 65 records whose first 64 matches do not suffice, given as a lemma;
  when at most 64 records contain the address, the forms always agree.
- **Pagination.** A client that follows the cursors comes to an end, and has then listed every
  overlapping record once: ranges in (start, end, ID) order, the routes of a prefix by ascending
  ID. A prefix is refused exactly when the routes around its first address and those that begin in
  it are, added up, more than 2,000,000.
- **The cache** keeps single flight, lock order and byte accounting in every reachable state of
  every interleaving. In every run of any calls, whoever opens a flight for a key that is in the
  cache has either made its own second look while the cache was off, or been overtaken by somebody
  who stored the key without being its producer. When only producers add, the first is the one
  way left, and it is open: a whole run from a new cache is given that ends in a second producer of
  a key that is still in the cache, against what compact_cache.go:113-116 promises.
- **The order of use.** After any history of calls a shard stands in the order of the last use of
  its keys, told by the history alone, and whatever it does not hold was last used before all that
  it holds. In every run of any threads a shard is the outcome of such a history.
- **What a call comes to.** In every run an Acquire ends with a hit at its last read, or with the
  ticket of the flight that it opened, or after it found the cache off; a woken waiter does not end
  before it has looked again. Get, Add and release are told in the same way.
- **Clearing the cache.** Once a `DisableAndClear` with no `Enable` beside it is through, all 32
  shards are empty and stay so until the next `Enable`, whatever Adds were in flight. A shard that
  it has passed stays empty exactly when the cache was still off as that shard was cleared: an
  `Enable` between the call's first step and the shard leaves the shard open, and a whole run is
  given that ends with an entry in it.
- **Summaries.** From the records to the answer: a range gets a summary exactly when it is an IPv4
  prefix of at most 16 bits, and the value stored under its key decodes to the figures and facets
  of that prefix. At /0, /8 and /16 these are the numbers of allocations and of routes that overlap
  it, and the ten countries and AS numbers that most of them have. Between those lengths they count
  pairs of a record and a bucket below; the facets are ranked from counts that are never too large,
  and exact for every value exactly when no bucket below the prefix has more than ten.
- **Formats.** Every decoder takes exactly the byte strings that are what the format says, told
  place by place: varints digit by digit, records field by field. Keys, trie files, cursors and the
  shard hash are told with the numbers of the format.

Record IDs are positions from one, so zero stands for "no record" as in the source. A bucket is a
sorted sequence of byte keys with a Seek/Next cursor. `IsWritten` in the two selector modules says
that bytes are those of a written selector; the lookups in `RouteLPM` and `SelectionLPM` name the
trie that the bytes hold as ghost arguments. A clause written `true == P(x)` means `P(x)`; the
comparison keeps the verifier from taking a long predicate apart where it is only passed on.

## Model

| member | source | states |
|---|---|---|
| Addresses.AddressOrder | internal/boltstore/store.go:81-101 | Sixteen-byte addresses of one version compare bytewise exactly as their numbers do |
| Bytes.LexIsFirstDifference | internal/boltstore/build.go:671-676 | Byte strings compare by the first place where they part, a shorter one before those that it begins |
| Addresses.CommonPrefix | internal/boltstore/route_lpm.go:261-283 | The common length is within both prefixes, their bits agree up to it, and part there unless one of them ends |
| Addresses.Masked | internal/boltstore/route_lpm.go:293-311 | The first bits are kept and all others are zero |
| Addresses.AddressMatches | internal/boltstore/selection_lpm.go:281-295 | True exactly when the prefix's bits are the first bits of the address |
| Addresses.RangeWidth | internal/boltstore/selection_lpm.go:250-264 | The borrow loop yields end minus start modulo 2^128 |
| Addresses.WidthOfRange | internal/api/bbolt.go:544-563 | For an ordered range of one version that is the difference of the numbers, without wrap |
| Addresses.UnmappedNum | internal/boltstore/store.go:81-92 | AddressFromAddr gives an address of ::ffff:0:0/96 as its image among the lowest IPv6 addresses, and any other as it is; what it gives is never mapped |
| Patricia.InsertKeepsPatricia | internal/boltstore/selection_lpm.go:71-118 | Insertion, splits included, keeps child keys strictly longer than and extending their parent's on the branch of their next bit, keeps idle nodes two-way, keeps the root, and is refused exactly when the merge refuses |
| Patricia.InsertIsUpdate | internal/boltstore/route_lpm.go:71-119 | After an insertion every key finds what it found before, but the inserted one finds the merged payload |
| Patricia.InsertTakes | internal/boltstore/route_lpm.go:92-119 | An insertion adds at most two array positions, all new, and no position is reached twice |
| Patricia.NodesBounded | internal/boltstore/route_lpm.go:49-127 | A trie with n stored keys has at most 2n + 1 nodes |
| Patricia.ChainIsExact | internal/boltstore/selection_lpm.go:188-217 | A walk meets exactly the stored prefixes of the address, each longer than the one before |
| Patricia.DeepestIsLongestMatch | internal/boltstore/route_lpm.go:204-224 | The deepest payload on a walk is that of the longest stored prefix; none exactly when no stored prefix matches |
| TrieBuilder.Builder.constructor | internal/boltstore/route_lpm.go:42-47 | A new builder has one root node and stores nothing |
| TrieBuilder.Builder.AppendNode | internal/boltstore/route_lpm.go:121-127 | A node is appended and its one-based position returned, or the array is full and unchanged |
| TrieBuilder.Builder.InsertAt | internal/boltstore/route_lpm.go:71-119 | The array afterwards holds the inserted trie, positions outside the subtree are untouched, and the returned reference is the subtree's |
| TrieBuilder.Builder.Insert | internal/boltstore/route_lpm.go:49-69 | Stored contents gain exactly one key, the bits of the unmapped address; the only errors are wrong family, duplicate and full table, so a replaced root and a missing node never occur |
| TrieBuilder.NodesAtMost | internal/boltstore/route_lpm.go:49-127 | The node array of a valid builder has at most twice as many nodes as stored prefixes, and the root |
| RouteLPM.Insert | internal/boltstore/route_lpm.go:49-69 | A new prefix with IDs is stored under the bits of its address, unmapped, and the trie holds that many IDs more; an empty list, another family, a prefix already there or a full table is refused, for that reason |
| RouteLPM.Encode | internal/boltstore/route_lpm.go:129-168 | The bytes are a header, every node's cell and all IDs in node order; refused exactly when the IDs do not fit 32 bits or one is zero |
| RouteLPM.DecodesNode | internal/boltstore/route_lpm.go:247-259 | Reading a node cell back gives the node that was written and where its IDs lie |
| RouteLPM.PrefixMatches | internal/boltstore/route_lpm.go:313-315 | The common length of address and prefix is the prefix length exactly when the prefix bits start the address |
| RouteLPM.Walk | internal/boltstore/route_lpm.go:204-224 | The walk in the bytes remembers where the deepest matching node's IDs lie |
| RouteLPM.Lookup | internal/boltstore/route_lpm.go:180-237 | The byte walk for the unmapped address returns the IDs of the deepest match of the tree walk, empty when there is none; it fails exactly when the header is wrong |
| SelectionLPM.Insert | internal/boltstore/selection_lpm.go:48-69 | A component, its address unmapped, keeps the better of its candidates by the width the borrow loop gives (the wrapped one for any two addresses), then ID; refused for record zero, another family or a full table |
| SelectionLPM.FoldIsLeast | internal/boltstore/selection_lpm.go:239-248 | Keeping the better of two choices over and over keeps the best of all by width, longer component, lower ID |
| SelectionLPM.SelectIsBest | internal/boltstore/selection_lpm.go:188-217 | The walk's choice is the best among all stored components that contain the address |
| SelectionLPM.Encode | internal/boltstore/selection_lpm.go:128-156 | The bytes are a header and every node's cell |
| SelectionLPM.DecodesNode | internal/boltstore/selection_lpm.go:192-203 | Reading a node cell back gives the node that was written |
| SelectionLPM.Walk | internal/boltstore/selection_lpm.go:184-218 | The byte walk keeps the choice the tree walk would |
| SelectionLPM.Lookup | internal/boltstore/selection_lpm.go:160-219 | The ID of the tree walk's choice for the unmapped address, zero when there is none; it fails exactly when the header is wrong |
| Cover.GreedyTiles | internal/boltstore/build.go:748-783 | The greedy blocks are aligned and follow each other from the first address to the last without gap or overlap |
| Cover.TilesCover | internal/boltstore/build.go:748-783 | An address is in the range exactly when one of the blocks has it |
| Cover.TilesOrdered | internal/boltstore/build.go:748-783 | Earlier blocks end before later ones begin |
| Cover.GreedyIsMaximal | internal/boltstore/build.go:756-766 | Every aligned block of the range lies inside one greedy block |
| Cover.GreedyIsMinimal | internal/ipkey/ipkey.go:249-294 | No family of CIDR blocks with the same union has fewer members |
| Cover.GreedyIsShort | internal/boltstore/build.go:748-783 | A cover has at most 2 * bits - 2 blocks |
| Cover.RangePrefixes | internal/boltstore/build.go:748-783 | The loop returns the greedy blocks in order, as prefixes; it terminates and an empty range gives none |
| Cover.BlockHasKey | internal/boltstore/build.go:769-779 | An address starts with a block's prefix bits exactly when its number lies in the block |
| Mapped.ClearIsPlain | internal/boltstore/store.go:81-92 | No CIDR piece of a range begins in ::ffff:0:0/96 exactly when the range keeps clear of it or goes around it in one piece |
| PointIndex.PutPrefixKey | internal/boltstore/store.go:121-135 | The key of any address's prefix is version, the unmapped base of the block of that size around it, and length |
| PointIndex.StoredKeyExact | internal/boltstore/store.go:115-142 | Two prefixes have one key exactly when version, length and unmapped block are the same |
| PointIndex.PrefixKeyInjective | internal/boltstore/store.go:115-142 | So different prefixes outside ::ffff:0:0/96 have different keys |
| PointIndex.GroupIsExact | internal/api/bbolt.go:1123-1129 | In an index without mapped pieces the IDs under a prefix key are those of the records that have that block |
| PointIndex.MatchingIds | internal/api/bbolt.go:1113-1132 | The scan returns the groups of the address's prefixes from longest to shortest: all of them without a limit or within it, otherwise as many from the front as the limit says |
| PointIndex.PointQueryIsExact | internal/api/bbolt.go:1113-1132 | In an index without mapped pieces a query at an address that is not mapped lists every record that contains it once, longest component first and then by ascending ID |
| MappedIndex.MappedIsElsewhere | internal/boltstore/store.go:121-135 | A record with a mapped piece is listed at every address of the piece's image, whether it contains that address or not |
| MappedIndex.PointQueriesExactIff | internal/api/bbolt.go:1113-1132 | In the index of any ranges, point queries at addresses that are not mapped are right exactly when every IPv6 range keeps clear of ::ffff:0:0/96 or goes around it in one piece |
| MappedIndex.NoHitIsMissed | internal/api/bbolt.go:1113-1132 | Whatever ranges are indexed, a query at an address that is not mapped lists, among others of the family perhaps, every record that contains it |
| MappedIndex.MappedQueryIsExact | internal/api/bbolt.go:1113-1132 | A query at a mapped address lists the routes of 96 bits and more around its image and those of up to 95 bits around itself, longest first |
| IndexWriter.IndexRanges | internal/boltstore/build.go:221-229 | The prefix index built from all ranges holds one stored key per CIDR piece of each record and nothing else; with clear ranges its keys tell all pieces apart |
| IndexWriter.IndexBounds | internal/boltstore/build.go:217-220 | The range index holds one key per record and nothing else |
| IndexWriter.ImportRoute | internal/boltstore/build.go:250-268 | Any parsed prefix is stored as its masked, then unmapped network: the block is the image of the prefix's, and never begins in ::ffff:0:0/96 |
| IndexWriter.IndexRoutes | internal/boltstore/build.go:272-274 | The prefix index of routes holds one key per route and nothing else |
| IndexWriter.RouteKeysAreFew | internal/boltstore/build.go:258-274 | No two keys name the same route, so a route index has no more keys than there are IDs |
| IndexWriter.PrefixRange | internal/boltstore/build.go:785-800 | Setting the bits behind a prefix gives the last address of its block |
| IndexWriter.RouteRanges | internal/api/bbolt.go:905-916 | The ranges of stored routes are the blocks they are indexed under |
| RouteSelector.CollectGroups | internal/boltstore/build.go:469-514 | One scan stores every distinct prefix of the family with all its IDs, as many as the family has keys; a duplicate is never inserted and only a table of 2^31 keys can fail |
| RouteSelector.RunIsGroup | internal/boltstore/build.go:496-513 | A run of equal prefixes in the sorted scan is the whole group of that prefix |
| RouteSelector.GroupsAreScan | internal/boltstore/build.go:469-514 | Every stored prefix comes from exactly one run of the scan, and in the order of the runs the stored groups laid end to end are the family's IDs: none lost, repeated or moved |
| RouteSelector.LongestMatchIsExact | internal/boltstore/build.go:469-531 | The longest stored match of an address names exactly the records whose route is longest, ascending |
| RouteSelector.WriteRouteLPM | internal/boltstore/build.go:469-531 | The written bytes hold a valid trie with exactly the index's groups; a full node table needs 2^31 keys of the index, too many IDs 2^32 of them, and the zero-ID error is unreachable |
| RouteSelector.LookupRoutes | internal/boltstore/route_lpm.go:180-237 | Looking up a written selector lists, ascending, exactly the records whose route is longest around the unmapped address |
| RangeSelector.KeepsOneMore | internal/boltstore/selection_lpm.go:82-88 | Inserting a component keeps, per component, the least candidate of the set inserted so far |
| RangeSelector.OrderIsIrrelevant | internal/boltstore/build.go:411-419 | Two orders of insertion of the same components end with the same contents |
| RangeSelector.BestIsNarrowest | internal/boltstore/selection_lpm.go:160-219 | The best stored choice is the record least by width, then longest component, then lowest ID among all that contain the address |
| RangeSelector.WriteSelectionLPM | internal/boltstore/build.go:381-447 | For clear ranges, the written bytes hold a valid trie with every component of every record of the family; it fails only when twice the number of the family's pieces, and one, passes 2^32 - 1 |
| RangeSelector.PiecesAreFew | internal/boltstore/build.go:748-783 | n ranges have at most 254 * n pieces |
| RangeSelector.LookupRange | internal/boltstore/selection_lpm.go:160-219 | Looking up a written selector returns the narrowest record that contains the unmapped address, zero exactly when none does |
| Lookup.NarrowestRoutes | internal/api/bbolt.go:525-542 | The routes of the greatest length, in their order |
| Lookup.FullRoutes | internal/api/bbolt.go:369-419 | The full form selects the first 64 IDs of the longest routes among those the point query lists, for every address; around one that is not mapped these are the longest routes |
| Lookup.CompactRoutes | internal/api/bbolt.go:314-340 | The compact form selects the first 64 IDs of the longest routes around the unmapped address |
| Lookup.SameRoutes | internal/api/bbolt.go:284-365 | Two selections of the longest routes around one address are the same, so the two forms agree around every address that is not mapped |
| MappedLookup.MappedFormsAgree | internal/api/bbolt.go:284-419 | Around a mapped address the two forms select the same routes exactly when a route of 96 bits or more is around its image, or none of 81 to 95 bits is around the address or its image |
| Lookup.NarrowerRange | internal/api/bbolt.go:544-549 | Byte comparison of two widths is comparison of the numbers |
| Lookup.NarrowestAllocation | internal/api/bbolt.go:497-523 | The first record of least width |
| Lookup.FullAllocation | internal/api/bbolt.go:369-419 | The full form picks the first narrowest of the first 64 matches; around an address that is not mapped the matches are the records that contain it |
| Lookup.CompactAllocation | internal/api/bbolt.go:286-313 | The compact form picks the narrowest record of all that contain the unmapped address |
| Lookup.AllocationsAgree | internal/api/bbolt.go:284-365 | The forms agree exactly when no match behind the first 64 is narrower than all of those, which is when the compact pick is among the 64 or nothing matches; with at most 64 matches always |
| Lookup.FormsPart | internal/api/bbolt.go:369-387 | For every address of either family with two more behind it, 65 records for which the first 64 matches do not suffice |
| Answers.LongestIsLongest | internal/api/bbolt.go:525-542 | The records with the longest component around an address in the route index are the routes whose bits start the address and none of whose like is longer |
| Answers.AnswerRoutes | internal/api/bbolt.go:284-365 | From any routes through index and selector, for any address: the compact form returns the first 64 IDs of the routes with the longest prefix of the unmapped address, the full form the same exactly when the two see alike, always for an address that is not mapped, and only 2^31 routes or more can leave the selector out |
| Answers.MappedRoutesPart | internal/api/bbolt.go:284-419 | With the one route ::/90, the compact form selects it for ::ffff:0:0 and the full form does not |
| Answers.AnswerAllocation | internal/api/bbolt.go:284-365 | From clear ranges through index and selector, for any address: the compact form returns the narrowest record around the unmapped address, and, when the address is not mapped, the full form the same exactly when no match behind the first 64 is narrower, always when at most 64 records contain it; the selector is left out only when 508 times the number of records, and one, passes 2^32 - 1 |
| Answers.AnswerRange | internal/api/bbolt.go:788-846 | From any ranges through both indexes: following the cursors ends with every overlapping record listed once, in (start, end, ID) order |
| RouteListings.ListPrefix | internal/api/bbolt.go:699-728 | A client that follows the cursors of a prefix's pages is refused on the first, exactly when too many keys would be read, or comes to an end with every record that meets the prefix, once and ascending, in as few pages as hold them |
| RouteListings.AnswerPrefix | internal/api/bbolt.go:686-735 | From any routes through the index: the client lists exactly the routes that meet the range, and is refused exactly when those around its first address and those that begin in it add up to more than 2,000,000 |
| RouteListings.AnswerRouteRange | internal/api/bbolt.go:788-846 | From any routes through both indexes: following the cursors ends with the key of every route that meets the range, once, in (start, end, ID) order |
| Overlap.OverlapIds | internal/api/bbolt.go:1134-1191 | Ascending IDs above the cursor of all keys read; refused exactly when more than 2,000,000 keys would be read |
| Overlap.OverlapIsExact | internal/api/bbolt.go:1134-1191 | The keys read belong to exactly the records whose range meets the query |
| Overlap.RoutesPage | internal/api/bbolt.go:699-728 | A page of a prefix's routes is the page at the cursor of the list of all overlapping records |
| Overlap.CoveringAllocation | internal/api/bbolt.go:1193-1218 | The innermost of all records that cover the prefix: latest start, earliest end, lowest ID; zero exactly when none covers it |
| Paging.CursorResumes | internal/api/bbolt.go:1355-1362 | What lies above a page's cursor is what the page left |
| Paging.RunEnumerates | internal/api/bbolt.go:699-728 | Following cursors lists every ID above the first cursor once, in order, in full pages but for the last, which alone has no cursor |
| RangePages.RangeKeyOrder | internal/boltstore/store.go:159-168 | Byte order of range keys is the order of version, start, end, ID |
| RangePages.CoveringEntries | internal/api/bbolt.go:855-903 | The sorted keys of exactly the records that start before the address and reach it |
| RangePages.DirectEntries | internal/api/bbolt.go:918-951 | The next keys of the range up to the maximum, and whether that many were there |
| RangePages.DirectIsExact | internal/api/bbolt.go:918-951 | The second phase reads exactly the records that start inside the range |
| RangePages.PageEntries | internal/api/bbolt.go:788-846 | A page is the first limit of what is to come at its cursor; a next cursor is there exactly when more remains, and what remains there is the rest |
| RangePages.FirstIsEverything | internal/api/bbolt.go:788-846 | From the empty cursor, what is to come is every record that meets the query once in (start, end, ID) order |
| RangePages.RunLists | internal/api/bbolt.go:788-846 | Answers so far and what is still to come make up the whole; every page with a cursor is full |
| RangePages.RunIsShort | internal/api/bbolt.go:788-846 | A run has at most one page more than the list has full pages |
| RangePages.WholeRunIsListing | internal/api/bbolt.go:788-846 | A whole run from the empty cursor lists every overlapping record once in (start, end, ID) order |
| RangePages.CursorRoundTrip | internal/api/bbolt.go:953-980 | A cursor comes back for the query it was made for and is refused for any other |
| RangePages.AcceptedIsEncoded | internal/api/bbolt.go:964-998 | Every accepted payload is what the encoder makes of the cursor it stands for |
| RangePages.RangePageEntries | internal/api/bbolt.go:788-846 | Refused exactly when the cursor is not accepted; otherwise the page and a cursor that will be accepted |
| RangePages.ListRange | internal/api/bbolt.go:788-846 | A client that sends back every next cursor comes to an end with every overlapping record listed once, in order, in as few pages of the limit as hold them |
| AsnPages.Search | internal/api/bbolt.go:1071-1075 | The first position whose ID is above the cursor |
| AsnPages.CursorPage | internal/api/bbolt.go:1071-1108 | The page at the cursor of the packed list |
| AsnPages.CursorPagesList | internal/api/bbolt.go:1071-1108 | Following cursors from the start lists every ID once, in order |
| AsnPages.PageByNumber | internal/api/bbolt.go:1064-1105 | A numbered page and the number of pages |
| AsnPages.NumberedPagesList | internal/api/bbolt.go:1064-1105 | Pages 1 to TotalPages together are the whole list; none is empty, all but the last are full |
| AsnPages.DecodeIds | internal/boltstore/store.go:204-213 | Accepted exactly for whole IDs; each ID is read from its place |
| AsnPages.IdsRoundTrip | internal/boltstore/store.go:196-213 | Unpacking packed IDs gives them back |
| AsnPages.CollectAsnRoutes | internal/boltstore/build.go:275-277 | Appending route by route gives each AS number but zero the ascending list of exactly its routes |
| AsnPages.WriteAsnRoutes | internal/boltstore/build.go:449-467 | One packed list is stored for every AS number that has a route |
| AsnPages.PagesListRoutes | internal/api/bbolt.go:1064-1108 | The pages of a stored list, by cursor or by number, together list exactly the routes of the system, ascending |
| ResponseCache.EvictedIsLongestFit | internal/api/compact_cache.go:159-165 | Eviction keeps the longest front of the list that fits the budget |
| ResponseCache.AddedKeepsNew | internal/api/compact_cache.go:141-165 | An accepted entry is in front after its own eviction round |
| ResponseCache.CacheIsFront | internal/api/compact_cache.go:137-166 | After any history a shard is a front of the list that it would be without eviction |
| CacheUse.OrderOfUse | internal/api/compact_cache.go:84-92 | After any history, what comes first in a shard was last used last, by a hit or an accepted addition of the history, and whatever the shard does not hold was last used before all that it holds |
| CacheUse.ValuesAreLast | internal/api/compact_cache.go:141-158 | Every entry holds the value last stored under its key, with no clearing since |
| CacheUse.Replay | internal/api/compact_cache.go:80-166 | A shard object put through any history ends in that order with those values |
| ResponseCache.Shard.Get | internal/api/compact_cache.go:84-92 | A hit is answered with the stored value and moves in front of all others, which keep their order; a miss changes nothing; map, list and counter stay in step |
| ResponseCache.Shard.Add | internal/api/compact_cache.go:141-165 | Refused exactly when the value is too large or with its key and 128 bytes passes the budget; otherwise it is in front of the others in their order, cut to the longest front that fits; map and list stay in bijection and the counter is the total size |
| ResponseCache.Shard.Clear | internal/api/compact_cache.go:199-205 | The shard is empty and the figures count what was there |
| ResponseCache.BudgetsSum | internal/api/compact_cache.go:66-72 | The shard budgets add up to the whole budget |
| ResponseCache.BudgetsAreEven | internal/api/compact_cache.go:66-72 | No two of the 32 budgets differ by more than one byte, and the larger ones come first |
| ResponseCache.NewResponseCache | internal/api/compact_cache.go:57-78 | No cache without a budget; otherwise 32 distinct empty shards with their budgets and the largest value size |
| ResponseCache.Cache.DisableAndClear | internal/api/compact_cache.go:191-208 | All 32 shards are empty, the cache is off, and the figures are the number and the total size of all the entries that were there |
| ResponseCache.FiguresAreTotals | internal/api/compact_cache.go:196-207 | The figures summed shard by shard are those of all lists laid end to end |
| CacheProtocol.StepRight | internal/api/compact_cache.go:97-166 | Every step of every interleaving keeps locks, flights, tickets, waiters and shards right |
| CacheProtocol.RunRight | internal/api/compact_cache.go:97-208 | So does every run of any length by any threads |
| CacheProtocol.ReachableRight | internal/api/compact_cache.go:57-208 | The invariant holds in every state that a new cache can reach, by any threads and any interleaving |
| CacheProtocol.OneProducer | internal/api/compact_cache.go:119-131 | At most one producer per key, and one exactly when the key is in the flights table |
| CacheProtocol.ReleaseDeletesOwn | internal/api/compact_cache.go:124-130 | A release deletes its own flight and no other |
| CacheProtocol.LateProducerIsMarked | internal/api/compact_cache.go:105-131 | In every run of any calls, whoever opens a flight for a key that is in the cache has found the cache off in its own second look, or somebody without a ticket has stored the key since |
| CacheProtocol.NoLateProducer | internal/api/compact_cache.go:105-131 | In every run in which only producers add, with the cache turned on and off at any time, whoever opens a flight does so for a key that is not in the cache, unless its own second look found the cache off |
| CacheProtocol.NoLateProducerWhileOn | internal/api/compact_cache.go:113-118 | So in every run in which nobody turns the cache off, a late arrival cannot become a second producer of a published key |
| CacheProtocol.OffLookOpens | internal/api/compact_cache.go:84-87 | For a key in the cache and not in flight, the second look leads to opening a flight exactly when it finds the cache off |
| CacheRuns.LateProducerAppears | internal/api/compact_cache.go:105-131 | The failing run, from a new cache: only producers add, the cache is turned off between the check under the flights lock and the second look, and a thread becomes the producer of a key that is in the cache |
| CacheProtocol.WaiterIsServed | internal/api/compact_cache.go:119-134 | While the flights lock is free, a waiter's flight is closed, or listed with a producer that still owes the release; what the waiter does then is told by `CacheCalls.WaiterLooksAgain` |
| CacheCalls.AcquireEnds | internal/api/compact_cache.go:97-135 | In every run an Acquire ends in one of three ways only: the key was in the cache at its last read, it holds the ticket of the flight that it opened, or it found the cache off |
| CacheCalls.OutcomeIsEnd | internal/api/compact_cache.go:109-134 | What an Acquire says as it gives the flights lock back is what it has seen: a hit exactly when its last read found the key, nothing exactly when it found the cache off, a release exactly when it opened the flight; otherwise it waits for the flight that it found |
| CacheCalls.WaiterLooksAgain | internal/api/compact_cache.go:132-134 | A waiter goes on only when its flight is closed, and does not end its call before it has read the shard again or found the cache off |
| CacheCalls.GetEnds | internal/api/compact_cache.go:80-93 | A Get ends with a read of its key's shard, or because it found the cache off |
| CacheCalls.AddEnds | internal/api/compact_cache.go:137-166 | An Add of an entry that is small enough ends with the entry stored in its shard, or because it found the cache off |
| CacheCalls.ReleaseEnds | internal/api/compact_cache.go:124-130 | A release ends with its flight closed and its ticket given up |
| CacheCalls.FlagIsHeeded | internal/api/compact_cache.go:80-150 | An Acquire that turns to the cache has found it on with its last step, in its loop or under the flights lock; whoever reads a shard has found the cache on since its call began, whoever opens a flight has found it on under the flights lock, and whoever stores an entry has found it on twice, the second time under the shard's lock |
| CacheCalls.FlagIsLastTurn | internal/api/compact_cache.go:182-195 | In every run the cache is on exactly when an Enable came and no DisableAndClear has turned it off since, or it began on and was never turned off |
| CacheCalls.ShardIsHistory | internal/api/compact_cache.go:84-166 | In every run a shard holds what its accesses, in their order, make of an empty one, so it is in order of use whatever the threads do |
| CacheProtocol.LockHolderMoves | internal/api/compact_cache.go:97-166 | Whenever a lock blocks a thread, some thread that holds a lock can step |
| CacheProtocol.ClearSeals | internal/api/compact_cache.go:195-205 | Clearing a shard while the cache is off seals it, with Adds in flight that saw it on |
| CacheProtocol.SealedUntilEnable | internal/api/compact_cache.go:188-208 | A sealed shard stays empty after every run without an Enable |
| CacheRuns.DisableAndClearSealsAll | internal/api/compact_cache.go:188-208 | A DisableAndClear with no Enable since its first step ends with all 32 shards empty and sealed, whatever other threads did meanwhile |
| CacheProtocol.ClearedForGood | internal/api/compact_cache.go:188-208 | A cleared shard can be refilled without a later Enable exactly when the cache was on as it was cleared |
| CacheProtocol.EnableInterleaves | internal/api/compact_cache.go:182-208 | A run in which another thread's Enable leaves the cache on as a shard is cleared |
| CacheProtocol.ClearedShardRefills | internal/api/compact_cache.go:182-208 | The whole run, from a new cache: turned off, enabled by another thread, shard zero cleared, and then filled without another Enable |
| Summaries.PreorderAscends | internal/boltstore/build.go:593-613 | The summary writer's order is strictly ascending |
| Summaries.PreorderCount | internal/boltstore/build.go:596-613 | The writer visits 2^(d+1) - 1 prefixes below one that is d levels above the deepest |
| Summaries.TreeIsBucket | internal/boltstore/build.go:593-613 | The keys of the preorder from the root are sorted, and are those of the IPv4 prefixes from /0 to /16 and no other |
| Summaries.PrefixForRangeIsExact | internal/ipkey/ipkey.go:69-93 | A range passes exactly when it is one aligned block, with that block's length |
| Summaries.SummaryKeyWasWritten | internal/ipkey/ipkey.go:56-65 | A range is answered from a summary exactly when it is an IPv4 prefix of at most 16 bits, and its key was written |
| Facets.RankedFacets | internal/boltstore/build.go:666-682 | Ten values of the tally or all of them, each with its count; the larger count first, of equal ones the lesser text, and whatever is left out behind all that are there, whatever order the map is read in |
| Facets.RankingIsTopTen | internal/boltstore/build.go:666-682 | A ranking holds values of the tally with their counts, ten or all of them, and a value left out is behind every one of ten others |
| Facets.RankingIsTop | internal/boltstore/build.go:666-682 | The ranking of a tally is the list of the first ten by count and text |
| Facets.TopTenIsUnique | internal/boltstore/build.go:671-676 | There is only one such list |
| Facets.RankingIsStable | internal/api/bbolt.go:1329-1345 | Tallying a ranking and ranking it again gives the ranking |
| Facets.MergedIsExact | internal/boltstore/build.go:645-664 | A merged count is never above the true total, and equal to it exactly when every list below tells the value's count |
| SummaryCounts.Builder.Collect | internal/boltstore/build.go:546-582 | Every /0, /8 and /16 bucket holds the number of records that overlap it, and the tallies of their countries and AS numbers |
| SummaryCounts.Builder.SummaryForPrefix | internal/boltstore/build.go:615-664 | A prefix of a counted length gets its counts and rankings; between those lengths the figures and the ranked facets of the buckets below are added up and ranked |
| SummaryCounts.TallyIsMentions | internal/boltstore/build.go:557-579 | A value is in a bucket's tally exactly when some record that overlaps it has the value, with the number of such records |
| SummaryCounts.CountedFacets | internal/boltstore/build.go:615-642 | At /0, /8 and /16 the facets are values of records with their numbers, and a value left out is behind ten others |
| SummaryCounts.MergedFacetsExactIff | internal/boltstore/build.go:619-664 | Between those lengths the counts that are ranked are exact for every value exactly when no bucket below the prefix has more than ten values |
| SummaryCounts.HalvesAddUp | internal/boltstore/build.go:615-631 | Between the counted lengths a prefix's figures are the sum of its two halves' |
| SummaryCounts.RunIsIncidences | internal/boltstore/build.go:619-630 | Those figures count pairs of a record and a bucket it overlaps |
| SummaryCounts.TouchesIsInterval | internal/boltstore/build.go:552-556 | A record is counted once per bucket between its first and its last below the prefix |
| SummaryBucket.FiguresFit | internal/boltstore/build.go:615-631 | The figures of every prefix fit the eight bytes they are stored in, and a signed 64-bit integer, for as many records as there are IDs |
| SummaryBucket.FacetsFit | internal/boltstore/build.go:615-664 | So do the counts of its facets, and their texts can be written |
| SummaryBucket.ValueComesBack | internal/boltstore/build.go:600-603 | The value written for a prefix decodes to the summary that was counted for it |
| SummaryBucket.WriteSummaries | internal/boltstore/build.go:584-613 | 2^17 - 1 entries, sorted, one for each IPv4 prefix from /0 to /16, each with that prefix's encoded summary |
| SummaryMeaning.SummaryMeans | internal/boltstore/build.go:546-642 | At /0, /8 and /16 a summary tells how many allocations and how many routes overlap the prefix, and the ten countries and AS numbers that most of them have; between those lengths it counts pairs of a record and a bucket below, a value only where the bucket's own ten include it; sets of records, nothing of the counting |
| SummaryBucket.WrittenMeans | internal/boltstore/build.go:596-603 | Under the key of each such prefix lies a value that decodes to a summary that tells the records in it |
| SummaryBucket.LookupRangeSummary | internal/api/bbolt.go:1000-1043 | A range is refused exactly when it is no IPv4 prefix of at most 16 bits; otherwise its key is found and the answer tells the records in it as `SummaryMeaning.SummaryMeans` says; neither a missing nor a corrupt summary occurs |
| SummaryBucket.AnswerSummary | internal/api/bbolt.go:1000-1043 | The same from the records on, counted, written and looked up: for a range of 2^16 to 2^32 IPv4 addresses, a power of two from a multiple of it on, the figures and facets are those of the records that overlap it, and any other range is refused |
| Records.ReadUvarint | internal/boltstore/store.go:278-284 | The loop reads a base-128 number of at most ten bytes, or refuses it |
| Records.UvarintRoundTrip | internal/boltstore/store.go:225-228 | Every 64-bit length comes back with the offset behind it |
| Records.Decoder.Take | internal/boltstore/store.go:235-242 | The next bytes and the offset moved past them, or nothing when there are too few or the size is negative |
| Records.PartialAgrees | internal/boltstore/store.go:360-464 | A partial decoder accepts exactly the byte strings the full one does and agrees on every field it reads |
| Records.DecodeAllocationLookup | internal/boltstore/store.go:363-393 | The full allocation with created, last-modified, source, maintainers, organization and description left empty; refused on the same byte strings |
| Records.DecodeRouteLookup | internal/boltstore/store.go:433-464 | The full route with registry, source, maintainers, organization and description left empty; refused on the same byte strings |
| Records.DecodeAutnumIdentity | internal/boltstore/store.go:545-569 | The full record's number, name and organization, all else empty; refused on the same byte strings |
| Records.DecodeBounds | internal/boltstore/store.go:343-358 | Version and bounds as they lie in the value, equal to those of the full decoders whenever they accept |
| Records.AllocationRoundTrip | internal/boltstore/store.go:308-339 | Decoding an encoded allocation gives it back |
| Records.EncodeAllocation | internal/boltstore/store.go:308-317 | The bytes written in order; they decode to the record for every record whose fields fit |
| Records.DecodeAllocation | internal/boltstore/store.go:319-341 | The reads in order give what the byte string holds, or refuse it, and nothing may be left over |
| Records.RouteRoundTrip | internal/boltstore/store.go:395-430 | Decoding an encoded route gives it back |
| Records.EncodeRoute | internal/boltstore/store.go:395-405 | The bytes written in order; they decode to the record for every record whose fields fit |
| Records.DecodeRoute | internal/boltstore/store.go:407-431 | The reads in order give what the byte string holds, or refuse it, and nothing may be left over |
| Records.GeofeedRoundTrip | internal/boltstore/store.go:466-496 | Decoding an encoded geofeed gives it back |
| Records.EncodeGeofeed | internal/boltstore/store.go:466-475 | The bytes written in order; they decode to the record for every record whose fields fit |
| Records.DecodeGeofeed | internal/boltstore/store.go:477-498 | The reads in order give what the byte string holds, or refuse it, and nothing may be left over |
| Records.AutnumRoundTrip | internal/boltstore/store.go:517-540 | Decoding an encoded autonomous system gives it back |
| Records.EncodeAutnum | internal/boltstore/store.go:517-524 | The bytes written in order; they decode to the record for every record whose fields fit |
| Records.DecodeAutnum | internal/boltstore/store.go:526-543 | The reads in order give what the byte string holds, or refuse it, and nothing may be left over |
| Records.SummaryRoundTrip | internal/boltstore/store.go:571-622 | Decoding an encoded summary gives it back exactly when neither facet list has more than 1,000,000 entries |
| RecordBytes.WrittenDigits | internal/boltstore/store.go:225-228 | A length is written as its base-128 digits, the least significant first, all but the last marked, and without a zero digit in front |
| RecordBytes.VarintMeaning | internal/boltstore/store.go:278-284 | Where such a number of at most ten bytes stands, a read gives what its digits stand for |
| RecordBytes.VarintIsMeant | internal/boltstore/store.go:278-284 | And a read succeeds nowhere else |
| RecordBytes.TextMeaning | internal/boltstore/store.go:278-289 | A text is read exactly where a number stands and behind it as many bytes as it says, and it is those bytes |
| RecordBytes.AllocationMeaning | internal/boltstore/store.go:308-341 | A byte string is taken for an allocation exactly when it is its version, start and end in 33 bytes and its twelve texts in the order of the format, with nothing left over |
| RecordBytes.RouteMeaning | internal/boltstore/store.go:395-431 | The same for a route: version, length, network and AS number in 22 bytes, then seven texts |
| RecordBytes.GeofeedMeaning | internal/boltstore/store.go:466-498 | The same for a geofeed: 33 bytes, then country, region and city |
| RecordBytes.AutnumMeaning | internal/boltstore/store.go:517-543 | The same for an autonomous system: its number in four bytes, then twelve texts |
| RecordBytes.StoredSummaryMeaning | internal/boltstore/store.go:571-622 | The same for a summary: length, allocations and routes in 17 bytes, then countries and AS numbers, each list with its count of at most 1,000,000 in front and each facet as a text and eight bytes |
| Formats.AddressBytes | internal/boltstore/store.go:81-92 | An IPv4 address has its 32 bits in the last four of sixteen bytes, an IPv6 address all 128, the most significant first |
| Formats.UnmappedBytes | internal/boltstore/store.go:81-92 | Ten zeros and two bytes 255 in front of an IPv6 address become twelve zeros; any other address stays |
| Formats.IndexKeyBytes | internal/boltstore/store.go:121-142 | 22 bytes: 4 or 6, the unmapped network, the prefix length, the ID |
| Formats.RangeKeyBytes | internal/boltstore/store.go:159-168 | 37 bytes: version, start, end, ID |
| Formats.CursorBytes | internal/api/bbolt.go:953-962 | 71 bytes: phase, kind, start and end of the queried range, key |
| Formats.RouteFileBytes | internal/boltstore/route_lpm.go:129-168 | MLP2, the family, the numbers of nodes and IDs, and 33 bytes for each node and four for each ID |
| Formats.RouteHeaderIsRead | internal/boltstore/route_lpm.go:180-200 | A value is taken for a route file exactly when its magic, family and length are those and it has a node |
| Formats.RouteNodeBytes | internal/boltstore/route_lpm.go:129-168 | Each node's cell lies at its place |
| Formats.RouteCellBytes | internal/boltstore/route_lpm.go:247-259 | A cell is prefix, length, the two children, and where the IDs begin and how many they are |
| Formats.RouteIdBytes | internal/boltstore/route_lpm.go:129-168 | Each ID lies at its place behind the nodes |
| Formats.SelectionFileBytes | internal/boltstore/selection_lpm.go:128-156 | SLP2, the family, the number of nodes, and 21 or 45 bytes for each |
| Formats.SelectionHeaderIsRead | internal/boltstore/selection_lpm.go:160-182 | A value is taken for a selection file exactly when its magic, family and length are those and it has a node |
| Formats.SelectionNodeBytes | internal/boltstore/selection_lpm.go:128-156 | A cell is prefix, length, the two children, the record and its width, zeros when there is none |
| Formats.SelectionNodeAt | internal/boltstore/selection_lpm.go:128-156 | Each cell lies at its place |
| Formats.PackedIdBytes | internal/boltstore/store.go:196-202 | The i-th ID of a packed list is its four bytes from 4 * i on |
| Formats.HashOnce | internal/api/compact_cache.go:210-217 | The shard hash takes in one byte by an exclusive or with the lowest byte and the product with 16,777,619 cut to 32 bits |
| Formats.XorBits | internal/api/compact_cache.go:213 | The exclusive or has a one exactly where the bits differ |
| Formats.HashOfLetters | internal/api/compact_cache.go:210-217 | It begins with 2,166,136,261, is the published value of 32-bit FNV-1a for "a", and its last five bits choose the shard |

## Left out

- HTTP handlers, authentication, CORS, JSON shaping and the response objects.
- bbolt itself: transactions, files, memory mapping, compaction; contexts and their cancellation.
- Text parsing and printing of addresses and numbers, and the base64 around a range cursor (section 5 of RFC 4648): cursors are modelled as their 71-byte payload.
- Lookup.FullAllocation: around a mapped address the contract says only that the pick is the first narrowest of what the point query lists.
- RangeSelector.WriteSelectionLPM: stated for ranges that keep clear of ::ffff:0:0/96 or go around it in one piece; for others `MappedIndex.PointQueriesExactIff` says that the index itself is wrong.
- Overlap.RoutesPage: the ends of the queried range are not mapped; a range that begins or ends in ::ffff:0:0/96 is asked as another one.
- RangePages.ListRange: the same; the ends of the queried range are not mapped.
- RouteLPM.Lookup: a value with an accepted header is taken to be one the encoder wrote, so the corruption errors inside the walk are unreachable here; without that the source's walk need not even end, as a node that names itself as its child shows.
- SelectionLPM.Lookup: the same; the bytes behind an accepted header are those of an encoder.
- SummaryCounts.Builder.Collect: a country or AS number is given trimmed and in upper case; only IPv4 records are given, as the source counts no others.
- Records.Decoder.Take: the machine sum of offset and size, which could wrap for sizes near 2^63, is an unbounded sum.
- AsnPages.CollectAsnRoutes: an origin's text is parsed before; routes are given by their AS numbers, zero for a text that is none.
- CacheProtocol.NoLateProducer: that only producers add is how the handlers use the cache while it is on; a request that found it off adds without a flight, which `CacheProtocol.LateProducerIsMarked` allows for.
- Origin identities, relation labels of routes, covering of a prefix by text comparison.
- Selector preloading and dropping, dataset warm-up, the overlap slot semaphore.
- The command-line programs, installation scripts and service files.
- TrieBuilder.Builder.Insert: the two builders of the source differ only in payload and in what a second insertion does, so one builder with a merge parameter stands for both; "no IDs" and "no candidate" are an absent payload.
- RouteLPM.Encode: the check that the total size fits a machine integer is not modelled; 2^32 nodes and IDs stay far below 2^63.
- Overlap.OverlapIds: the set of IDs is sorted by insertion where the source calls the library's sort; the result is the same ascending list.
- ResponseCache.Shard.Add: the library's doubly linked list is a sequence in order of use, and a map entry's list element is the entry it holds.
- Records.SummaryRoundTrip: the summary codec and the text decoders work on offsets as functions; lengths are unbounded numbers, so a varint length near 2^63 is refused as too long where machine addition would wrap.
- Records.DecodesEncoded: texts are byte strings shorter than 2^63.
- CacheProtocol.WaiterIsServed: that a producer does call its release is up to the caller, as in the source; cached values are sequences of bytes that are never shared.
- AsnPages.PageByNumber: the 63-bit product of page number and limit does not wrap here; limits are 1 to 100.
- RangePages.RangePageEntries: limits are at least one, as the handler enforces; a cursor whose key a client altered is accepted as in the source and resumes after that key.

# Verified models of the algorithms in dist-packages

This project models, in Dafny, the algorithms inside the vendored Python libraries under
`dist-packages/`, and proves what those libraries promise: CIDR arithmetic and IPv6 text
(`ipaddress.py`), JSON diff, patch and pointer (`jsonpatch.py`, `jsonpointer.py`), C3 linearisation
and the dispatch cache (`singledispatch.py`), the argument parsing engine (`argparse.py`), the nested
file lock (`filelock.py`), the connection pool (`pika_pool.py`), the stack of exit callbacks
(`contextlib2.py`) and the complexity visitor (`mccabe.py`).

`dafny verify dfyconfig.toml` checks the whole project.

## How the modules fit together

- `Bits`, `Cidr`, `Summarize`, `Collapse`: addresses are numbers below `2^w` for any width `w` (32 and
  128 are the instances); a network is an aligned block. Two blocks are nested or disjoint
  (`Cidr.Laminar`), so a set of addresses has exactly one list of maximal blocks. `Summarize.Canonical`
  states that list without any algorithm; both the greedy summary and the worklist merge are proved to
  return it, which makes collapsing depend on the union of its inputs only.
- `Text`, `Ipv4Text`, `Ipv6Text`: `IsText` says what the printed form is (the leftmost longest run of zero groups
  becomes `::`, sections 4.2.2 and 4.2.3 of RFC 5952); `Denotes` says which texts stand for which
  number (section 2.2 of RFC 4291). The printer and the parser are loops proved against these two
  relations, and `RoundTrip` connects them.
- `ListDiff`, `JsonPointer`, `JsonPatch`, `PatchFrame`, `PatchDiff`, `PatchLaw`: the script of removals
  and additions of a list difference, pointers with their escaping and percent-decoding, patches
  generated from two documents and applied to the first. `PatchFrame` says what one operation changes
  and that every other place reads as before, `PatchDiff` which operations a generated patch holds, and
  `PatchLaw.DiffThenPatchIff` gives the exact condition under which a patch leads to the target.
- `C3`, `C3Order`, `Dispatch`, `DispatchOrder`: the merge returns a linear extension of its inputs or
  there is none, and `C3Order.MergeIsChosen` says which one; `DispatchOrder` says which classes the order
  of a class holds and which implementation is found along it; the cache in front of the lookup cannot
  be observed.
- `ArgMatch`, `ArgLanguage`, `ArgParse`, `ArgRun`: nargs patterns run by a small backtracking matcher, and
  the loop that hands every argument to a positional, an option or the extras. `ArgLanguage.Speaks` says
  without patterns which arguments an action takes, and the first match is the best of all cuts of the
  arguments; `ArgRun.Accounts` says of a record of who took what that every event is what must come next,
  and `ArgRun.RunExact` that a run is the one such record.
- `FileLock`, `Pool`: critical sections as steps of a transition system, with invariants of every
  interleaving; the classes show that the sections' code is those steps.
- `ExitStack`: popping callbacks in a loop is the same as nested with statements.
- `McCabe`: the visitor builds a graph whose size counts the decisions of the syntax tree.

## Results where the code falls short of its documentation

- `address_exclude` raises ValueError from unpacking when `other` is a single address strictly inside
  the network, because `subnets` stops before the broadcast address and yields one subnet only when the
  new prefix length is the address width. `Cidr.SubnetsTile` and `Cidr.ExcludeExact` give the exact
  condition (`plen < w`, `other.plen < w`), `Cidr.FirstAddressRefused` an input.
- `JsonPointer.__init__` percent-decodes, so parts with a `%hh` triple do not survive
  (`JsonPointer.FromPartsRoundTrip`; `JsonPointer.PercentPartLost` is one). A generated patch is decoded once when it is made and once more when
  it is applied (`PatchLaw.ReadTwice`), and `apply(from_diff(src, dst)) == dst`, with list differences
  taken before `_optimize`, holds exactly when no key under which the documents differ has a triple
  (`PatchLaw.DiffThenPatchIff`; `PatchLaw.RemovePercentKey` is a failing input).
- The pattern for list indices is meant to refuse leading zeros, but lets every part through that begins
  with a zero: `01` is index 1, and `0x` ends in the ValueError of `int` (`PatchFrame.ListStepExact`).
- A file lock can stay taken with no thread holding it: a call that fails or times out only counts
  itself down, and if it is the last one in progress nobody releases the file (`FileLock.QuietMeansFree`
  gives the exact condition, `FileLock.StrandingRun` a run).
- Closing or releasing a pooled connection again adds a permit that stands for nothing
  (`Pool.ConservedIffNoMisuse`; `Pool.DoubleCloseRun` is a run), and releasing it again puts it in two
  places, so that it can reach two callers, exactly when it is still idle, in transit, handed out or being
  closed (`Pool.RunIff`; `Pool.DoubleReleaseRun` is a run).
- `_c3_merge` raises for a candidate that counts as false although an order exists (`C3.MergeExact`;
  `C3.FalseHeadRaises` is an input).

## Model

| member | source | states |
|---|---|---|
| Bits.CountsTrailingZeros | dist-packages/ipaddress.py:304-317 | `_count_righthand_zero_bits` is the largest k up to `bits` for which the number is a multiple of 2^k, although it is computed from complement, decrement and bit length |
| Bits.AlignedMeans | dist-packages/ipaddress.py:304-317 | the test by halving used for alignment holds exactly for the multiples of 2^k |
| Bits.XorOnes | dist-packages/ipaddress.py:566 | the exclusive or of two runs of ones is the run of high ones that a prefix mask is |
| Bits.AndShiftedMask | dist-packages/ipaddress.py:1084-1087 | masking with a netmask shifted left rounds the address down to the larger block, even where the shifted mask is wider than the address |
| Bits.OrHostBits | dist-packages/ipaddress.py:819-821 | or-ing the host bits into an aligned address adds them |
| Cidr.Netmask | dist-packages/ipaddress.py:556-566 | the mask of a prefix length is 2^w minus the block size |
| Cidr.Hostmask | dist-packages/ipaddress.py:826-831 | the host mask is the block size minus one |
| Cidr.Broadcast | dist-packages/ipaddress.py:817-823 | the broadcast address is the last address of the block and an address of the width |
| Cidr.MakeNet | dist-packages/ipaddress.py:1625-1640 | the constructor from (address, prefix length) accepts exactly the addresses aligned to the block, and raises ValueError for host bits or an address out of range |
| Cidr.Laminar | dist-packages/ipaddress.py:1101-1109 | of two networks one lies inside the other or they share no address |
| Cidr.SubnetOf | dist-packages/ipaddress.py:1101-1109 | comparing the two ends decides whether every address of one network is in the other |
| Cidr.BlockAtUnique | dist-packages/ipaddress.py:1625-1640 | an address lies in exactly one network of each prefix length |
| Cidr.Supernet | dist-packages/ipaddress.py:1048-1087 | the supernet has the shorter prefix length asked for and contains the network; every error case is a ValueError, and a network of prefix length 0 is its own supernet |
| Cidr.SupernetUnique | dist-packages/ipaddress.py:1084-1087 | the only network of that prefix length that contains the network is the one returned |
| Cidr.Subnets | dist-packages/ipaddress.py:995-1046 | which arguments are refused, and the list of subnets that is yielded, one subnet short when the new prefix length is the width |
| Cidr.RangeStep | dist-packages/ipaddress.py:1041-1046 | the loop, whose end is the broadcast address and excluded, visits exactly the subnets that are yielded |
| Cidr.SupernetOfChild | dist-packages/ipaddress.py:1044-1045 | each subnet d levels down has the network as its supernet d levels up |
| Cidr.SubnetsTile | dist-packages/ipaddress.py:1041-1046 | the subnets yielded are disjoint, and cover the network exactly when their prefix length is less than the width |
| Cidr.Unpack | dist-packages/ipaddress.py:914 | `s1, s2 = subnets()` gives the two halves, and fails exactly when the halves are single addresses or there are none |
| Cidr.ExcludeStep | dist-packages/ipaddress.py:915-921 | one round of exclusion peels off the half without `other` and keeps the rest tiled |
| Cidr.AddressExclude | dist-packages/ipaddress.py:898-935 | the networks yielded and the error raised, for every pair of networks |
| Cidr.ExcludeExact | dist-packages/ipaddress.py:898-935 | for `other` strictly inside, exclusion succeeds exactly when `other` is not a single address; it then yields one network per prefix length between, pairwise disjoint, which with `other` make up the network; neither AssertionError can be raised |
| Cidr.FirstAddressRefused | dist-packages/ipaddress.py:914-921 | a concrete refusal at every width: excluding 0.0.0.0/32 from 0.0.0.0/30, or its like, yields the upper pair and then raises |
| Summarize.MaximalAbove | dist-packages/ipaddress.py:320-372 | every block inside a set of addresses lies in a maximal one |
| Summarize.CanonicalIf | dist-packages/ipaddress.py:320-372 | an ascending list of blocks of u that absorbs every block of u is the list of the maximal blocks |
| Summarize.CanonicalTiles | dist-packages/ipaddress.py:320-372 | the maximal blocks cover exactly the addresses of the set |
| Summarize.CanonicalUnique | dist-packages/ipaddress.py:320-372 | a set of addresses has only one ascending list of maximal blocks |
| Summarize.CanonicalFewest | dist-packages/ipaddress.py:320-372 | no cover of the set by networks inside it is smaller than the list of maximal blocks |
| Summarize.GreedyBitsLargest | dist-packages/ipaddress.py:366-367 | the step takes the largest aligned block that starts at the current address and still fits |
| Summarize.SummarizeAddressRange | dist-packages/ipaddress.py:352-372 | the loop with its early exit yields the greedy summary, and refuses a range whose ends are in the wrong order |
| Summarize.GreedyHolds | dist-packages/ipaddress.py:365-372 | every block inside the range lies in one block of the summary |
| Summarize.SummaryCanonical | dist-packages/ipaddress.py:320-372 | the summary of a range is the ascending list of the maximal blocks inside it |
| Summarize.SummaryCount | dist-packages/ipaddress.py:365-372 | for widths of at least 2 a summary has at most 2w - 2 blocks |
| Summarize.SummaryCountAttained | dist-packages/ipaddress.py:365-372 | at every such width the range without its first and last address has exactly 2w - 2 |
| Summarize.ShrinkingCount | dist-packages/ipaddress.py:365-372 | from an aligned start, a range that ends inside a block of size 2^k needs at most k blocks |
| Summarize.GrowingCount | dist-packages/ipaddress.py:365-372 | while block sizes grow the number of blocks is bounded by the alignment still to be gained |
| Collapse.SiblingsMerge | dist-packages/ipaddress.py:408-411 | two different networks with the same supernet together cover exactly its addresses |
| Collapse.Merge | dist-packages/ipaddress.py:399-411 | the worklist loop ends (by twice the list plus the dictionary), keeps the addresses covered, and leaves one network under each supernet |
| Collapse.MergedHolds | dist-packages/ipaddress.py:399-411 | after the merge every block of covered addresses lies in one surviving network |
| Collapse.LessMeans | dist-packages/ipaddress.py:770-783 | the order of networks is by address and then by prefix length |
| Collapse.SortNets | dist-packages/ipaddress.py:414 | the surviving networks in that order, each exactly once |
| Collapse.Sweep | dist-packages/ipaddress.py:412-421 | dropping networks that end no later than the one before keeps an ascending list that absorbs all the others |
| Collapse.CollapseInternal | dist-packages/ipaddress.py:375-421 | the two phases return exactly the maximal blocks of the union of the networks |
| Collapse.SortedSet | dist-packages/ipaddress.py:468 | the addresses, increasing and without repetition |
| Collapse.FindAddressRange | dist-packages/ipaddress.py:284-301 | the runs of consecutive addresses, in order, apart from each other, covering exactly the addresses given |
| Collapse.SummarizeRuns | dist-packages/ipaddress.py:470-473 | the networks summarised from the runs cover exactly the addresses |
| Collapse.CollapseAddresses | dist-packages/ipaddress.py:442-475 | for any list of addresses and networks of one version: the ascending list of the maximal blocks inside their union |
| Collapse.CollapseByUnion | dist-packages/ipaddress.py:424-475 | inputs with the same union collapse to the same list, whatever their order, number or shape |
| Collapse.CollapseIdempotent | dist-packages/ipaddress.py:424-475 | collapsing the result again changes nothing |
| Collapse.NoSiblings | dist-packages/ipaddress.py:424-475 | no two networks of the result have the same supernet |
| Collapse.CollapseAgreesWithSummary | dist-packages/ipaddress.py:470-475 | when the union is a range, collapsing gives the summary of the range |
| Text.SplitJoin | dist-packages/ipaddress.py:1765 | splitting a join gives the parts back when none holds the separator |
| Text.JoinSplit | dist-packages/ipaddress.py:1951 | joining a split gives the text back |
| Text.NumeralRoundTrip | dist-packages/ipaddress.py:1948 | reading a printed decimal or hexadecimal numeral gives the number, and it starts with a zero only for zero |
| Text.NumeralLength | dist-packages/ipaddress.py:1948 | a number below the base to the power k has at most k digits |
| Text.DigitExact | dist-packages/ipaddress.py:1869-1877 | the sixteen digits and no other characters have values, the letters in either case |
| Text.LowerParses | dist-packages/ipaddress.py:1869-1877 | a numeral and its lower-case form are read alike |
| Text.NumeralExact | dist-packages/ipaddress.py:1869-1877 | the digit strings read as a number are, up to case, its printed numeral and that with zeros in front |
| Ipv6Text.PadHexReads | dist-packages/ipaddress.py:1947-1948 | a number of at most k groups is padded to exactly 4k hexadecimal digits, which read back to it |
| Ipv6Text.HextetsOf | dist-packages/ipaddress.py:1947-1948 | cutting the 32 digits every four gives the eight printed groups |
| Ipv6Text.SlicesAreGroups | dist-packages/ipaddress.py:1948 | each slice of four digits is one group of sixteen bits |
| Ipv6Text.PrintedHextet | dist-packages/ipaddress.py:1854-1877 | a printed group parses back, and prints as "0" exactly for zero |
| Ipv6Text.CompressHextets | dist-packages/ipaddress.py:1880-1925 | the leftmost longest run of zero groups, if longer than one, becomes an empty part, with a further one at each end of the list it touches |
| Ipv6Text.ReplaceRun | dist-packages/ipaddress.py:1914-1923 | the three list edits give the list with the run cut out |
| Ipv6Text.StringFromIpInt | dist-packages/ipaddress.py:1928-1951 | numbers of more than 128 bits are refused, all others get the text of the address |
| Ipv6Text.TextUnique | dist-packages/ipaddress.py:1896-1925 | an address has only one text |
| Ipv4Text.V4RoundTrip | dist-packages/ipaddress.py:1251-1312 | parsing the four printed octets of a 32-bit number gives the number |
| Ipv4Text.V4Exact | dist-packages/ipaddress.py:1251-1312 | a text is accepted, with number n, exactly when it is four octets joined by dots whose big-endian number is n, each of one to three decimal digits, at most 255, and without a leading zero above 7 |
| Ipv6Text.ExpandTailExact | dist-packages/ipaddress.py:1773-1780 | a last part with a dot becomes the two hextets of the IPv4 address it spells, and is refused exactly when it spells none |
| Ipv6Text.AroundShape | dist-packages/ipaddress.py:1791-1817 | the place of the gap and the parts around it can be read off the list of parts |
| Ipv6Text.DenotesUnique | dist-packages/ipaddress.py:1749-1851 | no list of parts stands for two numbers |
| Ipv6Text.FindGap | dist-packages/ipaddress.py:1791-1800 | the scan finds the one empty part between the ends, and refuses a second only when the parts stand for nothing |
| Ipv6Text.CountSides | dist-packages/ipaddress.py:1804-1817 | how many parts stand on each side of the gap, and that a lone colon at an end is refused only when the parts stand for nothing |
| Ipv6Text.ShiftHextets | dist-packages/ipaddress.py:1842-1844 | shifting and or-ing hextets into a number gives the value of the groups, and fails exactly when one is no hextet |
| Ipv6Text.ShiftAll | dist-packages/ipaddress.py:1839-1849 | the groups before the gap, the zeros of the gap and the groups after it, in this order |
| Ipv6Text.IpIntFromParts | dist-packages/ipaddress.py:1782-1851 | the parts are accepted exactly when they stand for a number, which is the number returned |
| Ipv6Text.IpIntFromString | dist-packages/ipaddress.py:1749-1851 | a text is accepted exactly when it stands for a number: eight hextets, or at most seven around one "::", the last two possibly written as a dotted IPv4 address; otherwise AddressValueError |
| Ipv6Text.CaseDoesNotMatter | dist-packages/ipaddress.py:1749-1851 | a text and its lower-case form stand for the same numbers |
| Ipv6Text.RoundTrip | dist-packages/ipaddress.py:1749-1951 | the text of every 128-bit number stands for that number and for no other, so parsing undoes printing |
| Ipv6Text.GapTextDenotes | dist-packages/ipaddress.py:1802-1849 | every text `hi::lo` with at most seven hextets is accepted with the value its zeros give it |
| ListDiff.FillEntry | dist-packages/jsonpatch.py:583-594 | a matrix entry is the length of the longest common run that ends at its two positions |
| ListDiff.LongestCommonSubseq | dist-packages/jsonpatch.py:566-595 | filling the matrix row by row finds the last of the longest common runs |
| ListDiff.LcsIsLongest | dist-packages/jsonpatch.py:566-595 | the ranges returned are in bounds, of equal length and equal contents, and longest among all common runs; there are none exactly when the lists share no element |
| ListDiff.LcsIsLast | dist-packages/jsonpatch.py:588-592 | among the longest common runs the ranges returned end last in the first list, and of those last in the second |
| ListDiff.SplitStep | dist-packages/jsonpatch.py:637-648 | a split around a common block is made of the splits of the two sides |
| ListDiff.SplitDescribes | dist-packages/jsonpatch.py:598-648 | the tree of absolute ranges describes the two lists as equal blocks with differing parts between, whatever part of them is split |
| ListDiff.CompareLeft | dist-packages/jsonpatch.py:683-702 | the removals of a range from its tail, at shifted positions, and the shift after them |
| ListDiff.CompareRight | dist-packages/jsonpatch.py:705-717 | the additions of a range at the target's positions, and the shift after them |
| ListDiff.RemovalsAt | dist-packages/jsonpatch.py:690-702 | the removals go down one by one from the end of the range |
| ListDiff.AdditionsAt | dist-packages/jsonpatch.py:711-717 | the additions go up one by one from its start, each with the element of the target |
| ListDiff.ReplayRemovals | dist-packages/jsonpatch.py:689-702 | removing from the tail takes out exactly the middle part |
| ListDiff.ReplayAdditions | dist-packages/jsonpatch.py:711-717 | adding one by one at growing positions inserts exactly the target's part |
| ListDiff.LeafReplay | dist-packages/jsonpatch.py:657-680 | at a leaf, the working list goes from "dst up to b, then src from a" to the same with both positions moved on |
| ListDiff.PartScript | dist-packages/jsonpatch.py:657-680 | the script of any described part rewrites its part of the working list and keeps the shift equal to the distance between the positions |
| ListDiff.CompareThenReplay | dist-packages/jsonpatch.py:651-717 | replaying the raw script on any list gives the other list, with every index in range |
| JsonPointer.UnescapeEscape | dist-packages/jsonpointer.py:146-147 | the two replacements that unescape a part undo the two that escape it |
| JsonPointer.EscapeNoSlash | dist-packages/jsonpointer.py:293-294 | an escaped part holds no slash |
| JsonPointer.UnescapeExact | dist-packages/jsonpointer.py:146-147 | read from left to right, ~0 is a tilde, ~1 a slash, and every other character itself |
| JsonPointer.UnquoteByte | dist-packages/jsonpointer.py:145 | a percent sign and two hexadecimal digits, of either case, are the character with that number, below 128 |
| JsonPointer.TripleKept | dist-packages/jsonpointer.py:145 | escaping neither makes nor breaks a percent triple |
| JsonPointer.PartRoundTrip | dist-packages/jsonpointer.py:145-147 | escaping, percent-decoding and unescaping give a part back exactly when it has no percent triple, and something shorter otherwise |
| JsonPointer.PathSplits | dist-packages/jsonpointer.py:140-143 | splitting the path at slashes gives the escaped parts |
| JsonPointer.ParseExact | dist-packages/jsonpointer.py:140-148 | a string is a pointer exactly when it is empty or starts with a slash, and then it is made of the pieces between its slashes |
| JsonPointer.ParsePieces | dist-packages/jsonpointer.py:140-148 | the parts of a pointer are these pieces, each percent-decoded and then unescaped |
| JsonPointer.PathReads | dist-packages/jsonpointer.py:286-296 | the parts of the pointer that `from_parts` builds are each decoded and unescaped once |
| JsonPointer.FromPartsRoundTrip | dist-packages/jsonpointer.py:286-296 | `from_parts(parts)` never raises, and has the parts given exactly when none has a percent triple |
| JsonPointer.PercentPartLost | dist-packages/jsonpointer.py:145 | a failing part: `%41` does not come back |
| JsonPointer.OwnPathRoundTrip | dist-packages/jsonpointer.py:260-296 | the pointer parsed from a pointer's own path equals it exactly when no part of the pointer, already decoded once, has a percent triple |
| JsonPointer.PathInjective | dist-packages/jsonpointer.py:260-267 | different lists of parts have different paths |
| JsonPatch.PutFrame | dist-packages/jsonpatch.py:393-468 | changing the value at one path leaves every path that does not meet it as it was |
| JsonPatch.ApplyUnder | dist-packages/jsonpatch.py:393-468 | an operation below a path changes only the value there, and as it would change that value by itself |
| PatchFrame.ListStepExact | dist-packages/jsonpointer.py:197-211 | in a list a part is the end mark, or an index exactly when it is its decimal numeral, with or without zeros in front; what only begins with a zero raises ValueError, anything else the pointer exception |
| PatchFrame.WalkExact | dist-packages/jsonpointer.py:222-245 | one step leads to the member, element or character that the part names, and to nothing else |
| PatchFrame.ApplyEdits | dist-packages/jsonpatch.py:393-468 | an operation that succeeds edits the container that all parts but the last lead to, through dictionaries and lists, and every place that does not meet it reads as before |
| PatchFrame.ApplyLeads | dist-packages/jsonpatch.py:393-468 | it succeeds exactly when that container takes the edit, and otherwise raises what the container raises |
| PatchFrame.ApplyNowhere | dist-packages/jsonpointer.py:222-245 | an operation whose parts lead nowhere raises the pointer exception, or ValueError for a bad number |
| PatchFrame.ListEdited | dist-packages/jsonpatch.py:393-468 | element by element: an addition in a list, at an index or at the end, puts one element in, a removal takes one out, a replacement changes one, all others keep their order; and which index is refused with which error |
| PatchFrame.ListRefuses | dist-packages/jsonpatch.py:393-468 | any other part of a list is refused, the end mark with TypeError |
| PatchFrame.DictEdited | dist-packages/jsonpatch.py:393-468 | key by key: the edited key gets the value or loses its own, which must be there to be removed or replaced, and every other key keeps its value |
| PatchFrame.RootEdited | dist-packages/jsonpatch.py:429-454 | the whole document can be replaced, and added over a dictionary, but not removed |
| PatchFrame.BadPathFirst | dist-packages/jsonpatch.py:328-351 | one path that is no pointer refuses the whole patch before anything is applied |
| PatchFrame.PatchRuns | dist-packages/jsonpatch.py:332-351 | the operations are applied one after the other, each to what the ones before it leave, and the first that is refused refuses the patch |
| JsonPatch.OneListEdit | dist-packages/jsonpatch.py:690-715 | a removal or addition printed as a path with a decimal index is applied to the list at that index |
| JsonPatch.ListScript | dist-packages/jsonpatch.py:319-320 | a list script under a path replays on the list at that path |
| JsonPatch.BothLoops | dist-packages/jsonpatch.py:303-317 | the two loops of `compare_dicts` together produce the target's members, in whatever order the keys come |
| JsonPatch.ValuesScript | dist-packages/jsonpatch.py:288-317 | the operations of `compare_values` under a path replace the value there by the target's, in any surrounding document |
| PatchDiff.ValuesExact | dist-packages/jsonpatch.py:288-320 | a diff holds an operation exactly when a difference calls for it: a removal or addition of a key that only one dictionary has, the steps of the script between two lists, and a replacement of any other two values that differ |
| PatchDiff.ValuesApart | dist-packages/jsonpatch.py:288-320 | and each place gets one operation, but for the elements of a list |
| JsonPatch.DiffThenApply | dist-packages/jsonpatch.py:322-351 | applied with their paths as parts, the operations lead from the source to the target for all documents |
| JsonPatch.DiffThenPatch | dist-packages/jsonpatch.py:322-351 | through path strings, diff then patch gives the target when no key in which the documents differ has a percent triple |
| PatchLaw.ReadTwice | dist-packages/jsonpatch.py:300-301 | a key is written and decoded twice on its way from the diff to the operation, and comes out as itself exactly when it has no percent triple, shorter otherwise |
| PatchLaw.PatchReads | dist-packages/jsonpatch.py:300-317 | the paths of a generated patch always parse, and each part is then read after two decodings, one in `from_parts` and one when the operation is set up |
| PatchLaw.PercentTwice | dist-packages/jsonpatch.py:300-301 | the key `%2541` is looked up as `A` |
| PatchLaw.Spared | dist-packages/jsonpatch.py:393-468 | operations that go through other members of a dictionary leave a member as it is |
| PatchLaw.KeysThrough | dist-packages/jsonpatch.py:303-311 | the operations of the first loop go only through keys in which the dictionaries differ |
| PatchLaw.LostKeyStays | dist-packages/jsonpatch.py:303-317 | the longest key that cannot be spelled is touched by no operation, so the result differs there |
| PatchLaw.Broken | dist-packages/jsonpatch.py:288-317 | a key that cannot be spelled, at any depth, makes the patch fail or end in something else than the target |
| PatchLaw.DiffThenPatchIff | dist-packages/jsonpatch.py:322-351 | diff then patch gives the target exactly when no key under which the documents differ has a percent triple |
| PatchLaw.RemovePercentKey | dist-packages/jsonpatch.py:303-308 | a concrete failure: a key with a percent triple cannot be removed |
| C3.CandidateFrom | dist-packages/singledispatch.py:30-37 | the candidate is the head of the first list whose head appears in no tail; without one every head appears in some tail |
| C3.AppearsLater | dist-packages/singledispatch.py:32-37 | the inner loop decides whether a head appears later in some list |
| C3.FindCandidate | dist-packages/singledispatch.py:30-37 | the nested loops find the first such head |
| C3.RemoveHeads | dist-packages/singledispatch.py:42-44 | the candidate is removed from every list it heads and from nowhere else |
| C3.C3Merge | dist-packages/singledispatch.py:19-44 | the loop over purged lists returns the merge, or raises, also for a candidate that counts as false |
| C3.RoundShrinks | dist-packages/singledispatch.py:26-44 | each round makes the lists shorter in total |
| C3.MergeSound | dist-packages/singledispatch.py:19-44 | a returned merge lists each element exactly once and keeps the order of every input |
| C3.MergeTrue | dist-packages/singledispatch.py:38-39 | every element of a returned merge counts as true |
| C3.MergeComplete | dist-packages/singledispatch.py:38-39 | whenever some total order of elements that count as true extends all the inputs the merge does not raise |
| C3.MergeExact | dist-packages/singledispatch.py:19-44 | the merge returns exactly when a common linear extension of the inputs exists all of whose elements count as true |
| C3.FalseHeadRaises | dist-packages/singledispatch.py:38-39 | a list with only a false element has a linear extension and the merge raises |
| C3Order.MergeIsChosen | dist-packages/singledispatch.py:19-44 | the merge returns r exactly when each element of r is the head of the earliest list, after the elements before it are removed, whose head is in no tail, r leaves nothing over, and all of it counts as true |
| C3Order.ChosenUnique | dist-packages/singledispatch.py:30-37 | only one list has this property |
| Dispatch.MroSound | dist-packages/singledispatch.py:46-89 | a linearisation holds the class, repeats nothing, and keeps the order of the bases, of the inserted abstract classes, and of the linearisations of every base and of every inserted abstract class |
| Dispatch.MroExact | dist-packages/singledispatch.py:46-89 | a linearisation is returned exactly when every base and every inserted abstract class has one and a common order of them all exists, of classes that count as true |
| DispatchOrder.FilterNext | dist-packages/singledispatch.py:96-113 | a comprehension goes through its list in order |
| DispatchOrder.MroChosen | dist-packages/singledispatch.py:61-89 | a linearisation is exactly the C3 merge, with the earliest good head first, of the class, the linearisations of the bases up to the last abstract one, those of the abstract classes that it implements and none of its bases does, those of the other bases, and the three lists themselves |
| DispatchOrder.ComposedMembers | dist-packages/singledispatch.py:91-130 | the order a class is dispatched along holds exactly its ancestors and those of every registered class that issubclass says it is a subclass of |
| DispatchOrder.AbcsMembers | dist-packages/singledispatch.py:97-113 | the abstract classes inserted are the registered virtual bases that are no base of another one |
| DispatchOrder.OrderBuilt | dist-packages/singledispatch.py:114-129 | their order is built type by type: a type without useful subclasses is put last, otherwise what its useful subclasses list is appended, each class once, the longest list first and lists of one length in the order of the subclasses |
| DispatchOrder.SortsStably | dist-packages/singledispatch.py:124-125 | the sort puts longer lists first and keeps the order of lists of one length |
| DispatchOrder.OrderedOnce | dist-packages/singledispatch.py:117-129 | each type is listed once exactly when no type without useful subclasses is already listed under an earlier one |
| DispatchOrder.RepeatRefused | dist-packages/singledispatch.py:117-130 | whenever an order is found, each type is listed once |
| DispatchOrder.MatchExact | dist-packages/singledispatch.py:143-155 | by places: the match is the first registered class of the order, and it is ambiguous exactly when the next class is registered too, neither is in the own order of the class and the first is no subclass of the second |
| DispatchOrder.LookupExact | dist-packages/singledispatch.py:132-156 | a lookup returns the implementation of the class itself, or of the first registered class of its order; RuntimeError exactly for want of an order or in such a case of doubt |
| DispatchOrder.RootFound | dist-packages/singledispatch.py:132-156 | with an implementation for the root class a lookup never comes back with nothing |
| Dispatch.FindMatch | dist-packages/singledispatch.py:143-155 | the loop returns the first registered class of the order, or raises on an ambiguous pair of implicit abstract classes |
| Dispatch.LookupIndependent | dist-packages/singledispatch.py:132-156 | without abstract classes in the registry a lookup does not depend on what issubclass says of virtual subclasses, nor on which subclasses are defined |
| Dispatch.DispatchCoherent | dist-packages/singledispatch.py:173-193 | a dispatch returns what the uncached lookup would now, and keeps the cache coherent |
| Dispatch.RegisterCoherent | dist-packages/singledispatch.py:203-206 | a registration keeps the cache coherent, whether or not it starts the watch on the token |
| Dispatch.CacheInvisible | dist-packages/singledispatch.py:173-206 | over any sequence of dispatches, registrations and token changes the results are those without a cache, given that issubclass and the direct subclasses change only with the token |
| Dispatch.DispatchCaches | dist-packages/singledispatch.py:173-193 | a dispatch leaves its result in the cache unless it raised, keeps the other entries unless the token has changed, and notes the token |
| Dispatch.DispatchAgain | dist-packages/singledispatch.py:185-186 | a second dispatch of the class under the same token is answered from the cache and changes nothing |
| Dispatch.TokenRecorded | dist-packages/singledispatch.py:204-205 | over any sequence of calls, the token is recorded exactly once an abstract class has been registered |
| Dispatch.Closures.constructor | dist-packages/singledispatch.py:168-171 | the closures start with one registration, an empty cache and no token |
| Dispatch.Closures.Dispatch | dist-packages/singledispatch.py:173-193 | the closure makes the dispatch step and returns the uncached result |
| Dispatch.Closures.Register | dist-packages/singledispatch.py:195-206 | the closure makes the registration step |
| ArgMatch.MatchArgumentsPartial | dist-packages/argparse.py:2060-2074 | the counts of the longest prefix of the actions that matches |
| ArgMatch.MatchFits | dist-packages/argparse.py:2066-2070 | a match has one count per action and never takes more than there is |
| ArgMatch.PartialFits | dist-packages/argparse.py:2060-2074 | the same for the partial match of positionals |
| ArgMatch.StrippedPatterns | dist-packages/argparse.py:2210-2213 | what the two replacements leave of each pattern when '--' is not allowed |
| ArgLanguage.GroupExact | dist-packages/argparse.py:2177-2215 | the pattern of an action matches a stretch of arguments exactly when nargs allows its number of plain ones; `...` takes options too, `A...` after a plain argument; only a positional takes the `--` |
| ArgLanguage.GroupGreedy | dist-packages/argparse.py:2066-2070 | the ends of a pattern are tried from the furthest, for every nargs and every kind of argument |
| ArgLanguage.FirstMatchBest | dist-packages/argparse.py:2066-2070 | a list of actions matches exactly when the arguments can be cut among them, and the first match is the lexicographically greatest cut |
| ArgLanguage.PartialBest | dist-packages/argparse.py:2060-2074 | the positionals that get arguments at once are the longest prefix among which the arguments can be cut, in the greatest way |
| ArgLanguage.ArgumentLongest | dist-packages/argparse.py:2041-2058 | an option takes the longest stretch that its nargs allow, and raises exactly when there is none |
| ArgLanguage.PartialIsGreatest | dist-packages/argparse.py:2060-2074 | on a run of plain arguments, that prefix is the longest whose least counts fit, and the counts the lexicographically greatest within the bounds |
| ArgLanguage.OptionalTakes | dist-packages/argparse.py:2041-2058 | an option takes as many of the plain arguments after it as its nargs allow, and raises when there are too few |
| ArgParse.BuildPattern | dist-packages/argparse.py:1778-1804 | the pattern string has one letter per argument, with the option tuples at the places of the O's and plain arguments only after the first '--' |
| ArgParse.PatternUnique | dist-packages/argparse.py:1778-1804 | there is only one such pattern |
| ArgParse.NextIndex | dist-packages/argparse.py:1937-1940 | the least option index from an index on, or that there is none |
| ArgParse.OptionRun | dist-packages/argparse.py:1841-1894 | whatever a string of bundled options takes starts at that string and stays within the arguments |
| ArgParse.TakeOption | dist-packages/argparse.py:1839-1894 | the loop over bundled flags ends and takes what the rules for one option string give |
| ArgParse.FlagTakesNothing | dist-packages/argparse.py:1851-1857 | an option with nargs 0 matches nothing, whatever follows |
| ArgParse.BundleIsSeparate | dist-packages/argparse.py:1848-1894 | -xyz takes what -x -y -z take when the leading options are flags: the same options, with the same arguments after the last, or the same error |
| ArgRun.AttachedExact | dist-packages/argparse.py:1848-1882 | with an attached argument: an option that can do with one argument takes it, whatever its dashes; a single-dash flag hands it on to the option its first character names; every other case raises, with the error of each |
| ArgRun.AloneExact | dist-packages/argparse.py:1886-1894 | without one the option takes the longest stretch of what follows, or raises ArgumentError |
| ArgParse.TilesAt | dist-packages/argparse.py:1926-1966 | in a record that tiles the arguments every index belongs to exactly one event |
| ArgParse.Engine.constructor | dist-packages/argparse.py:1903-1929 | the engine starts with nothing consumed |
| ArgParse.Engine.AddExtras | dist-packages/argparse.py:1954-1957 | arguments nobody takes become extras, in order |
| ArgParse.Engine.ConsumeOptional | dist-packages/argparse.py:1831-1901 | an option string is consumed with its arguments, the index moves on, and the outcome of the run is kept; the error raised is the outcome's |
| ArgParse.Engine.TakeOptionals | dist-packages/argparse.py:1899-1900 | the options of one string are taken, in order |
| ArgParse.Engine.TakePositional | dist-packages/argparse.py:1916-1919 | a positional is taken with the arguments matched for it |
| ArgParse.Engine.ConsumePositionals | dist-packages/argparse.py:1908-1924 | exactly the positionals that match are taken, with consecutive arguments, and removed from the list |
| ArgParse.Engine.NextOption | dist-packages/argparse.py:1937-1940 | the least option index not before the current one |
| ArgParse.Engine.LastOption | dist-packages/argparse.py:1930-1933 | the greatest option index, or -1 |
| ArgParse.Engine.OnePass | dist-packages/argparse.py:1934-1960 | one pass of the main loop moves the index on and keeps the outcome of the whole run |
| ArgParse.Engine.MainLoop | dist-packages/argparse.py:1926-1960 | the main loop ends after the last option with the outcome still to come, or with the error the outcome has |
| ArgParse.Engine.Finish | dist-packages/argparse.py:1962-1966 | the positionals and extras after the last option complete the record |
| ArgParse.Engine.CheckRequired | dist-packages/argparse.py:1973-1978 | whether every required action was seen |
| ArgParse.Engine.Run | dist-packages/argparse.py:1926-1978 | the record of the run, or the error raised, is the outcome the matching rules determine, and a run that does not raise accounts for every argument and every positional |
| ArgParse.ParseKnownArgs | dist-packages/argparse.py:1763-2005 | the result is the extras, or the error, of the one run that the matching rules determine; every run that does not raise has a record that tiles the arguments in order, in which the extras are exactly what nobody took, every positional was taken in declaration order, every required action was seen, and every event is what the matching rules give |
| ArgRun.RestGetsNothing | dist-packages/argparse.py:1908-1924 | after some positionals got arguments, those left match nothing at the place reached |
| ArgRun.RunExact | dist-packages/argparse.py:1926-1968 | a run succeeds exactly with the record in which each event is what must come next (an option at an option string, elsewhere the positionals that match there, and arguments become extras only where no positional left matches); it fails for want of arguments, or at an option, exactly when such a record gets there; there is no other outcome |
| ArgRun.AccountsPlaced | dist-packages/argparse.py:1926-1966 | such a record takes every argument once and in order |
| ArgRun.LeftAre | dist-packages/argparse.py:1903-1924 | and the positionals in turn |
| ArgRun.ResultMeans | dist-packages/argparse.py:1763-2005 | the result of parsing is the extras of that record with every required action in it, and each error has its reason in the record |
| ArgRun.OneResult | dist-packages/argparse.py:1763-2005 | nothing else is a result of the same arguments |
| FileLock.OsLock.TryLock | dist-packages/filelock.py:386-391 | an exclusive lock is got exactly when the file is free |
| FileLock.OsLock.Unlock | dist-packages/filelock.py:401 | unlocking frees the file |
| FileLock.UnixFileLock.constructor | dist-packages/filelock.py:134-156 | a new lock object counts nobody and holds nothing |
| FileLock.UnixFileLock.CountUp | dist-packages/filelock.py:258-261 | the section that counts a call in |
| FileLock.UnixFileLock.TryAcquire | dist-packages/filelock.py:268-271 | the section of the polling loop, which attempts only when the object is not locked |
| FileLock.UnixFileLock.CountDown | dist-packages/filelock.py:285-290 | the section that counts a failed call out |
| FileLock.UnixFileLock.ReleaseLock | dist-packages/filelock.py:306-318 | the section of release, which frees the file only for the last count or when forced |
| FileLock.StepKeeps | dist-packages/filelock.py:258-318 | every step keeps the counter equal to the calls in progress and every holder seeing the lock held |
| FileLock.RunKeeps | dist-packages/filelock.py:258-318 | so does every interleaving |
| FileLock.Turns | dist-packages/filelock.py:258-318 | what a call can do next depends on where it is, and it can always do it |
| FileLock.Caused | dist-packages/filelock.py:258-290 | how each call in progress came to where it is; a call leaves with an error only from an attempt, or a timeout, that finds the object not locked |
| FileLock.Returns | dist-packages/filelock.py:268-276 | an attempt that finds the object locked returns whatever the timeout, and the object stays locked until the call releases it |
| FileLock.PollGets | dist-packages/filelock.py:268-271 | an attempt gets the file exactly when it could be opened and is free, and leaves a lock alone that the object has |
| FileLock.OthersKept | dist-packages/filelock.py:386-391 | nothing but their own release takes the file from other holders |
| FileLock.ReleaseExact | dist-packages/filelock.py:306-318 | a release frees the file exactly for the last call counted or by force, and otherwise only counts down |
| FileLock.QuietMeansFree | dist-packages/filelock.py:285-318 | with no call in progress the file is held exactly when the last call gave up while the object held the file and no call has started since |
| FileLock.NoGiveUpNoLeak | dist-packages/filelock.py:293-318 | if no call times out or fails, then once all have been released the file is free |
| FileLock.StrandingRun | dist-packages/filelock.py:285-290 | a run in which the file stays held by nobody |
| Pool.QueuedPool.constructor | dist-packages/pika_pool.py:292-299 | a new pool has all permits and no idle connection |
| Pool.QueuedPool.GetNowait | dist-packages/pika_pool.py:302-304 | the oldest idle connection, or Empty |
| Pool.QueuedPool.TakePermit | dist-packages/pika_pool.py:341-344 | a permit, or Overflow when none is left |
| Pool.QueuedPool.GiveBack | dist-packages/pika_pool.py:333-336 | a close, or a failed construction, gives a permit back |
| Pool.QueuedPool.PutNowait | dist-packages/pika_pool.py:326-331 | a connection becomes idle, unless the queue is full |
| Pool.StepConserves | dist-packages/pika_pool.py:301-351 | every step keeps the permits free and in use at the same number, but a second close or release adds one |
| Pool.StepExclusive | dist-packages/pika_pool.py:301-351 | every step other than a second release keeps each connection in one place: idle, in transit, handed out or being closed |
| Pool.StepIff | dist-packages/pika_pool.py:301-351 | from a state with every connection in one place, a step leaves one in two places exactly when it releases again a connection that is idle, in transit, handed out or being closed |
| Pool.RunKeeps | dist-packages/pika_pool.py:301-351 | in every interleaving, misuse included, the counter stays non-negative, the queue within its size, and the permits are the limit plus the second closes and releases |
| Pool.RunIff | dist-packages/pika_pool.py:301-351 | throughout a run no connection is in two places, and so with two callers, exactly when none is released again while it is idle, in transit, handed out or being closed; releasing again one that is gone does no harm here |
| Pool.RunExclusive | dist-packages/pika_pool.py:301-351 | in particular none is as long as nobody releases a connection again |
| Pool.ConservedIffNoMisuse | dist-packages/pika_pool.py:296-351 | the permits are conserved exactly when no connection was closed or released again for an acquisition already over; then those in use never exceed `max_size + max_overflow`, and otherwise not by more than the misuses |
| Pool.DoubleCloseRun | dist-packages/pika_pool.py:333-337 | a run with a second close, after which a pool of one connection has two permits |
| Pool.DoubleReleaseRun | dist-packages/pika_pool.py:326-331 | a run with a second release, after which a connection is in the queue while another caller has it |
| Pool.QuietPool | dist-packages/pika_pool.py:296-351 | when nothing is in progress every missing permit stands for an idle connection |
| Pool.Turns | dist-packages/pika_pool.py:301-351 | what an acquisition can do next depends on where it is, and while it waits on whether a connection is idle |
| Pool.Caused | dist-packages/pika_pool.py:301-324 | how each acquisition came to where it is: it looks into the queue, asks for a permit, and refused one waits on the queue before it asks again |
| Pool.Ends | dist-packages/pika_pool.py:301-351 | how an acquisition can end |
| Pool.TimeoutMeans | dist-packages/pika_pool.py:301-315 | an acquisition that ends for want of a permit was refused one before and then waited on a queue that was empty when the wait was over |
| Pool.GivenBackGoes | dist-packages/pika_pool.py:326-331 | a connection given back goes to the end of the queue, or, when that is full, is on its way to be closed |
| ExitStack.NestedSplit | dist-packages/contextlib2.py:307-312 | nested with statements may be split at any level |
| ExitStack.Stack.constructor | dist-packages/contextlib2.py:304-305 | a new stack is empty |
| ExitStack.Stack.Push | dist-packages/contextlib2.py:321-339 | a callback is put on top |
| ExitStack.Stack.PushPlain | dist-packages/contextlib2.py:341-352 | a plain function is put on top as a callback that never returns true |
| ExitStack.Stack.EnterContext | dist-packages/contextlib2.py:354-365 | the exit method is pushed only when entering did not raise |
| ExitStack.Stack.PopAll | dist-packages/contextlib2.py:307-312 | all callbacks move to a new stack, in order |
| ExitStack.Stack.ExitAll | dist-packages/contextlib2.py:374-401 | for every list of callbacks and every incoming exception or none: the final exception and state are those of the nested with statements, and the same calls are made in the same order with the same exceptions |
| ExitStack.PlainNeverSwallows | dist-packages/contextlib2.py:341-352 | a stack filled through `callback` alone passes the exception on, and ends clean exactly when it started clean and no function raised |
| McCabe.ConnectedCounts | dist-packages/mccabe.py:68-69 | a new edge raises the complexity exactly when its source already had one |
| McCabe.PathGraph.constructor | dist-packages/mccabe.py:62-66 | a new graph has no nodes |
| McCabe.PathGraph.Connect | dist-packages/mccabe.py:68-69 | the edge is appended to the list of its source |
| McCabe.ComputeComplexity | dist-packages/mccabe.py:80-86 | summing the lists in any order gives edges minus nodes plus 2 |
| McCabe.NextBranch | dist-packages/mccabe.py:185-217 | each further branch from a node adds its own decisions and one |
| McCabe.WalkCounts | dist-packages/mccabe.py:108-222 | visiting any statement raises the potential (complexity, plus one if the tail already has an edge) by its decisions |
| McCabe.HandlersCount | dist-packages/mccabe.py:208-211 | every except handler adds its decisions and one |
| McCabe.FunctionComplexity | dist-packages/mccabe.py:124-132 | the complexity of a function is 2 plus the ifs, loops, except handlers and nested functions visited in it |
| McCabe.FunctionShape | dist-packages/mccabe.py:60-82 | the graph of a function has one node and those its statements create, all but the last tail have out-edges, and the edges are as many as the created nodes and the decisions together |
| McCabe.ScanNotes | dist-packages/mccabe.py:104-182 | in any module, every function outside others and every loop outside functions is recorded under its key with that complexity, later ones replacing earlier ones |
| McCabe.Visitor.constructor | dist-packages/mccabe.py:94-102 | the visitor starts outside any function |
| McCabe.Visitor.AppendPathNode | dist-packages/mccabe.py:140-146 | a new node after the tail becomes the tail; nothing happens outside functions |
| McCabe.Visitor.VisitSimpleStatement | dist-packages/mccabe.py:148-159 | a simple statement appends one node |
| McCabe.Visitor.VisitIf | dist-packages/mccabe.py:185-201 | both branches are walked from the if and joined |
| McCabe.Visitor.VisitTryExcept | dist-packages/mccabe.py:203-217 | the body and every handler are walked from the try and joined |
| McCabe.Visitor.VisitClassDef | dist-packages/mccabe.py:134-138 | a class prefixes the keys of its methods and leaves the graph to them |
| McCabe.Visitor.NewGraph | dist-packages/mccabe.py:124-132 | a function outside others gets a graph of its own and leaves the visitor outside functions |
| McCabe.Visitor.Nested | dist-packages/mccabe.py:115-123 | a closure or a loop adds its body and two edges to one new node |
| McCabe.Visitor.DispatchList | dist-packages/mccabe.py:104-106 | the statements are visited in order |
| McCabe.Visitor.Dispatch | dist-packages/mccabe.py:27-39 | every class of node goes to its method, and the others to their children |
| McCabe.Run | dist-packages/mccabe.py:246-254 | McCabeChecker reports exactly the units whose 2-plus-decisions reaches the threshold, and nothing for a negative one |

## Left out

- `ipaddress.py`: mixed IPv4 and IPv6 inputs, the Interface classes, netmask strings, packed addresses, iteration over hosts and the tables of special networks. Networks are values of one width; the cached properties are computed afresh.
- Collapse.SortNets: is an insertion sort for the builtin `sorted` on a set of networks; only its result is taken from the source, as with Collapse.SortedSet.
- Ipv4Text.V4RoundTrip: covers the IPv4 texts that the IPv6 parser meets as a tail; the IPv4 network texts with a mask are not modelled.
- `jsonpatch.py` `_optimize`, `_optimize_using_replace`, `_optimize_using_move` (lines 720-795), through which `_compare_lists` passes the script: they match operations by path text after indices have moved. The models take the raw script of `_compare`, and nothing is claimed about the optimised one.
- `jsonpatch.py` move, copy and test operations, the text form of patches, and malformed operations without a `value` member.
- JsonPatch.DiffThenPatch: documents are values, so the deep copy and sharing between the patch and the document are not captured; `1 == True` and `1 == 1.0` are not equal here unless they are the same value.
- PatchLaw.DiffThenPatchIff: dictionaries are iterated in any order that lists each key once; the raw list script stands in for the optimised one.
- `jsonpointer.py` `resolve`, `set`, `contains`, list indices that begin with a zero and that `int` reads through white space or underscores, an index before a line break, and percent-decoded bytes of 128 and more, which the model turns into one replacement character instead of decoding UTF-8.
- Dispatch.MroSound: the classes of a hierarchy are numbers with acyclic bases, each with a fixed truth value; objects without an `__mro__` are left out.
- DispatchOrder.ComposedMembers: assumes that a method resolution order holds the class and the ancestors of its bases and nothing else, and that `__subclasses__()` lists only classes with the class among their bases, as both do unless a metaclass says otherwise.
- Dispatch.CacheInvisible: assumes that issubclass and `__subclasses__()` change only when the token of abstract classes does, so no class that a lookup would see is defined while the token stays, and does not model weak references that drop cache entries, or the decorator form of `register`.
- ArgParse.ParseKnownArgs: `_parse_optional` is a parameter that classifies a string; values, types, defaults, conflicts between mutually exclusive actions, files of arguments and subparsers are left out. `Err` cases say which error is raised, not its text.
- FileLock.RunKeeps: timeouts and failures of `os.open` are choices of the run, threads are told apart by calls, and forced release, asynchronous interrupts, the Windows and soft locks and real time are left out.
- Pool.RunKeeps: expiry and failures are choices of the run, sockets are not modelled, and `close` counts up in a step of its own after the caller gave the connection away. Whoever closes or releases again is not told apart from others who did so before; a call on a connection object that has already forgotten its connection is one of these steps if it still counts up, and none if it fails first.
- ExitStack.Stack.ExitAll: callbacks do not change the stack they are on; tracebacks and the rewriting of `__context__` are left out.
- McCabe.ScanNotes: the syntax tree is what the visitor tells apart; line numbers, node titles, the dot output and the command line are left out, and a report carries the key instead of the message.
- `memcache.py`, `libvirt.py`, `cmd2.py`, `pep257.py`, `decorator.py`, `ddt.py`, `mimeparse.py`, `retrying.py` and the other packages: clients, wrappers and user interfaces that would add only easy members.

# IPv4 subnet planner: sizing, VLSM allocation, aggregation and input checks

This project models the numeric core of a small Python network-planning tool
and proves properties of the model.

**Sizing** (`sumarizar.py`). Each requested network gets 20 % extra hosts plus
two: `ceil(1.2 * hosts) + 2`. That count is rounded up to a power of two, and
`calcular_mascara` turns the power into the mask text `/p`.

**VLSM allocation** (`main` in `sumarizar.py`).
- The records are sorted largest first. The sort is Python's stable sort, so
  ties keep their input order.
- A start index outside the list is replaced by 0.
- Blocks are then handed out in rotation from the start record. Each block is
  the cursor with the host bits of the record's prefix cleared. The cursor
  then moves to the first address after the block.
- Nothing checks for overlap.

**Aggregation** (`sumarizar.py`).
- `sumarizar_redes` sorts the networks by base address and widens the first
  one by one bit per remaining network. It gives up as soon as a widening
  fails to cover every network.
- `validar_redes_contiguas` checks that, once sorted, each network starts right
  after the broadcast address of the one before it.

**Input checks** (`Comandos.py`).
- `validar_ip` matches a regular expression, then reads every dot-separated
  piece with `int()`.
- The interface-name test is a substring test for `Fa`, `Gig` or `S`.

Modules:
- `Wrappers`: `Option`.
- `Ipv4`: CIDR blocks, `ip_network(..., strict=False)`, `supernet()`,
  `subnet_of`, usable hosts.
- `Decimal`: `int()` and `str()` on digit strings.
- `Sizing`: the margin, the power-of-two rounding and the mask text.
- `StableSort`: `list.sort` and `sorted` with a key.
- `Vlsm`: the allocation loop as methods proved against the function
  `RotationPlan`.
- `VlsmProperties`: what the allocation guarantees and what it does not.
- `Aggregate`: both aggregation routines as loop methods, plus a corrected
  summarizer.
- `Text`: `str.split`, `str.join`, `str.strip` and substring search.
- `Validation`: `validar_ip` and the interface test.
- `VlsmExamples`, `AggregateExamples`, `ValidationExamples`: worked inputs.

Integers are unbounded. The IPv4 address space is `[0, 2^32)`, and every
block the model uses is proved to lie inside it (`Ipv4.Valid`).

## Where the code departs from its documented intent

The model follows the code in each case.

- **How `sumarizar_redes` stops.** Its docstring (`sumarizar.py:38`) promises
  a supernet that covers the given networks. The code does exactly `len - 1`
  widenings and fails at the first one that does not cover, so it can refuse
  networks that one supernet covers, or return a wider one than needed.
  `Aggregate.Summarize` follows the code. The difference is recorded under
  Findings.
- **No overlap.** The comment at `sumarizar.py:155` says the next subnet is
  found by advancing past the addresses just used.
  - With start 0 the blocks are indeed laid side by side:
    `VlsmProperties.StartZeroPlan`.
  - With a rotated start, line 131 clears the host bits of a longer block's
    prefix, which can move the cursor back, and the blocks overlap:
    `VlsmExamples.RotatedStartOverlaps`.
- **Order of the records.** Line 100 sorts the list in place, so the final
  records are in largest-first order, not in the order they were asked for.
  `Vlsm.Plan` keeps that order.

## Model

| member | source | states |
|---|---|---|
| Sizing.WithMargin | sumarizar.py:86 | the count with margin is the least integer not below 6/5 of the hosts, plus two (`5(total-2) >= 6h > 5(total-3)`), with no floating point |
| Sizing.CeilLog2 | sumarizar.py:6 | `ceil(log2(x))` is the least k with `x <= 2^k` |
| Sizing.CeilLog2Least | sumarizar.py:6 | every k with `x <= 2^k` is at least `CeilLog2(x)` |
| Sizing.CeilLog2OfPow2 | sumarizar.py:87 | the logarithm of a power of two is exact, so `calcular_mascara` of a power `2^k` gives prefix `32 - k` |
| Sizing.TotalHosts | sumarizar.py:87 | total_hosts is a power of two, at least the count with margin and less than twice it |
| Sizing.TotalHostsIsLeast | sumarizar.py:87 | no smaller power of two holds the count with margin |
| Sizing.TotalHostsMonotone | sumarizar.py:87 | a larger count with margin never gets a smaller block |
| Sizing.MaskFor | sumarizar.py:4-8 | the mask text starts with `/`; it reads back as `32 - ceil(log2 total)` when that is a valid prefix, and as no prefix otherwise |
| Sizing.SizedBlock | sumarizar.py:85-88 | for more than two hosts the block has at least 8 addresses, and its mask reads back as a prefix of at most 29 whose block size is total_hosts |
| Sizing.SizingFiftyHosts | sumarizar.py:86-88 | 50 hosts need 62 addresses, a /26 of 64 |
| Sizing.SizingTenHosts | sumarizar.py:86-88 | 10 hosts need 14 addresses, a /28 of 16 |
| Sizing.SizingThreeHosts | sumarizar.py:86-88 | the smallest accepted count, 3 hosts, needs 6 addresses, a /29 of 8 |
| Sizing.SizingExample | sumarizar.py:86-88 | when the count with margin lies in `(2^(k-1), 2^k]`, total_hosts is `2^k` and the mask is `/` followed by `32 - k` |
| Decimal.ValueOfDigits | sumarizar.py:8 | `int(str(n)) == n`: the prefix written into the mask text reads back unchanged |
| Decimal.DigitsOfValue | Comandos.py:9 | `str(int(s)) == s` for a digit string without a leading zero |
| StableSort.Sort | sumarizar.py:100 | the sorted list is a permutation of the input |
| StableSort.SortOrdered | sumarizar.py:100 | the sorted list is in key order |
| StableSort.SortStable | sumarizar.py:100 | records with equal keys keep their input order |
| StableSort.SortOfSorted | sumarizar.py:41 | sorting a list already in key order leaves it unchanged |
| StableSort.SortMember | sumarizar.py:41 | every element of the sorted list comes from the input |
| Ipv4.ToNetwork | sumarizar.py:118 | `ip_network(addr/p, strict=False)` is the aligned block of prefix p that holds addr; it lies inside the address space when addr does |
| Ipv4.Size | sumarizar.py:156 | `num_addresses`: a block of prefix p has `2^(32 - p)` addresses |
| Ipv4.Broadcast | sumarizar.py:64 | `broadcast_address`: the last address of the block, base plus size minus one |
| Ipv4.ToNetworkUnique | sumarizar.py:131 | any aligned block of prefix p holding addr is the one `ip_network` builds |
| Ipv4.ToNetworkTwice | sumarizar.py:118-131 | canonicalising an already canonical base again with a prefix no longer than the first equals canonicalising the address directly |
| Ipv4.SubnetOfMeansContainment | sumarizar.py:48 | `subnet_of` holds exactly when every address of the first network is in the second |
| Ipv4.SubnetOf | sumarizar.py:48 | `subnet_of`: the first network starts no earlier and ends no later than the second (its meaning is `Ipv4.SubnetOfMeansContainment`) |
| Ipv4.Supernet | sumarizar.py:46 | `supernet(prefix - 1)` has one bit less of prefix and twice the size, and contains the network; at /0 it is the network itself |
| Ipv4.UsableRange | sumarizar.py:147-153 | the usable hosts run from base+1 to broadcast-1, `Size - 2` addresses, for prefixes up to /30; the whole block for /31 and /32 |
| Ipv4.Gateway | sumarizar.py:143 | the gateway is the first usable address, base+1, for prefixes up to /30 |
| Vlsm.SizeAll | sumarizar.py:82-97 | the loop appends one record per request, in input order, each built by `Sized` |
| Vlsm.Sized | sumarizar.py:85-96 | the record built for one request: its name and hosts, the count with margin, the mask text of total_hosts, total_hosts itself, and no subnet yet |
| Vlsm.EffectiveStart | sumarizar.py:108-111 | the start index, replaced by 0 when it is negative or not below the number of networks (its properties are `VlsmProperties.EveryRecordOnce`) |
| Vlsm.StartCursor | sumarizar.py:118 | the first cursor: the base address with the host bits of the start record's prefix cleared, never above the base |
| Vlsm.Cursor | sumarizar.py:118-160 | the cursor before iteration i: the start cursor, then after each block the address after it, canonicalised with that block's prefix (its shape is `VlsmProperties.BlockShape`) |
| Vlsm.Block | sumarizar.py:131 | the subnet made at iteration i: the cursor with the host bits of that iteration's prefix cleared |
| Vlsm.RotationPlan | sumarizar.py:118-160 | the records after the loop: record k holds the block made at the iteration that reaches it, `Turn(k)` |
| Vlsm.Plan | sumarizar.py:82-160 | the final records for at least one request: sized, sorted largest first, start clamped, blocks assigned in rotation (its properties are `VlsmProperties.PlanRecord` and `StartZeroPlan`) |
| Vlsm.Allocate | sumarizar.py:82-160 | the whole allocation: no request gives no plan, otherwise exactly `Plan(requests, start, base)` |
| Vlsm.AssignInRotation | sumarizar.py:118-160 | the rotation loop leaves every record with the block of the iteration that reached it (`RotationPlan`) |
| Vlsm.AssignSlot | sumarizar.py:127-160 | one iteration stores the next block in the slot `(start + i) mod n` and advances the cursor, keeping the loop invariant |
| VlsmProperties.BlockShape | sumarizar.py:131-160 | block i has the record's prefix, is aligned, starts at or below the cursor and holds it; the next cursor is its broadcast address plus one, strictly above the old cursor |
| Vlsm.TurnOfSlot | sumarizar.py:127 | slot `(s + i) mod n` is reached at iteration i and at no other |
| Vlsm.SortedPrefixesOk | sumarizar.py:100-131 | every sorted record keeps the margin and total_hosts of its host count, and its mask reads back as a prefix of at most 29 whose block has total_hosts addresses |
| VlsmProperties.LargestFirstOrder | sumarizar.py:100 | the sorted records are a permutation of the built ones; total_equipos and total_hosts never grow along the list; equal keys keep input order |
| VlsmProperties.EveryRecordOnce | sumarizar.py:108-111 | the start is clamped into `[0, n)` (an in-range start is kept), and the rotation reaches every record exactly once |
| VlsmProperties.PlanRecord | sumarizar.py:131-132 | every final record is its sorted record with a subnet filled in: a valid block of the record's prefix, of total_hosts addresses, at least the count with margin, with gateway base+1 and usable range base+1 to broadcast-1 |
| VlsmProperties.PlanAllocated | sumarizar.py:125-160 | every record of the plan holds such a block |
| VlsmProperties.BlockOfRecord | sumarizar.py:131 | the block made for record k is valid and has that record's prefix |
| VlsmProperties.BlockInsideAddressSpace | sumarizar.py:156-160 | while the demand fits above the base, every block lies inside the IPv4 address space |
| VlsmProperties.RotatedSpan | sumarizar.py:125-160 | whatever the start, the block sizes add up to the total demand |
| VlsmProperties.TotalsPermutation | sumarizar.py:100 | reordering the records does not change their total size |
| VlsmProperties.SortedPrefixesNonDecreasing | sumarizar.py:100 | largest first means prefixes never decrease along the sorted list |
| VlsmProperties.AlignedChainContiguous | sumarizar.py:156-160 | when every cursor is aligned to its block, the blocks lie back to back, without gap or overlap |
| VlsmProperties.StartZeroPlan | sumarizar.py:108-160 | with start 0, every record holds its block; the first block is the base with host bits cleared; each later one starts after the previous broadcast; no two overlap |
| VlsmExamples.ExampleSized | sumarizar.py:85-96 | A with 50 hosts becomes a /26 of 64, B with 10 hosts a /28 of 16 |
| VlsmExamples.StartZeroExample | sumarizar.py:108-160 | from 192.168.4.0 with start 0, A gets 192.168.4.0/26 and B gets 192.168.4.64/28 |
| VlsmExamples.RotatedStartOverlaps | sumarizar.py:118-160 | with start 1, B gets 192.168.4.0/28 and A gets 192.168.4.0/26, which contains B's block |
| Aggregate.SortByBase | sumarizar.py:41 | sorting by network address gives a permutation of the networks |
| Aggregate.First | sumarizar.py:44 | the first network after sorting is one of the inputs |
| Aggregate.Widen | sumarizar.py:45-46 | i widenings take i bits off the prefix, stopping at /0 |
| Aggregate.WidenValid | sumarizar.py:46 | every widening is a valid network containing the one it started from |
| Aggregate.Summarize | sumarizar.py:37-54 | the result exists exactly when each of the `len - 1` widenings of the first network covers every network; it is then the last widening |
| Aggregate.SummarizeSuccess | sumarizar.py:45-51 | a returned supernet is valid, covers every input, and has the first network's prefix minus `len - 1` (at least 0) |
| Aggregate.SummarizeSingle | sumarizar.py:44-51 | a single network summarizes to itself |
| Aggregate.WidenIsToNetwork | sumarizar.py:46 | i widenings of n are `ip_network(n.base/(prefix - i), strict=False)` |
| Aggregate.OnChain | sumarizar.py:46 | every valid network containing n is one of n's widenings |
| Aggregate.WidenMonotone | sumarizar.py:46 | more widenings give a larger network that contains the smaller one |
| Aggregate.SubnetOfAntisymmetric | sumarizar.py:48 | two valid networks each a subnet of the other are equal |
| Aggregate.WholeSpaceCovers | sumarizar.py:46-48 | widening down to /0 covers every network |
| Aggregate.CoversAll | sumarizar.py:48 | `all(r.subnet_of(superred) for r in redes_objetos)`: every network is a subnet of the candidate |
| Aggregate.CoversAllSorted | sumarizar.py:41-48 | covering the sorted list is the same as covering the input |
| Aggregate.SummarizeMinimal | sumarizar.py:37-54 | corrected summarizer: returns a valid network covering every input that is contained in every valid network covering them all |
| Aggregate.LeastCover | sumarizar.py:45-48 | the first covering widening is contained in every covering network |
| Aggregate.ValidateContiguous | sumarizar.py:56-69 | the answer is true exactly when, after sorting by address, each network starts at the previous broadcast plus one |
| Aggregate.Chained | sumarizar.py:60-65 | every network of the list starts at the broadcast address of the one before it plus one |
| Aggregate.ChainedApart | sumarizar.py:60-65 | in an accepted list every network ends before any later one starts, so no two overlap |
| Aggregate.ChainedCovers | sumarizar.py:60-65 | an accepted list leaves no gap: every address from the first base to the last broadcast lies in one of the networks |
| Aggregate.DuplicateNotChained | sumarizar.py:64-65 | a network given twice is refused |
| Aggregate.ShortListsChained | sumarizar.py:60-66 | zero or one network is always accepted |
| AggregateExamples.HalvesSummarize | sumarizar.py:37-51 | 10.0.0.0/25 and 10.0.0.128/25 summarize to 10.0.0.0/24 |
| AggregateExamples.QuartersRejected | sumarizar.py:45-49 | three aligned /26 blocks of 10.0.0.0/24 are refused, though that /24 is valid and covers them |
| AggregateExamples.HalfAndQuartersOverWide | sumarizar.py:45-51 | 10.0.0.0/25, 10.0.0.128/26 and 10.0.0.192/26 summarize to the /23, though the /24 covers them |
| AggregateExamples.QuartersMinimal | sumarizar.py:37-54 | for the three /26 blocks the corrected summarizer's answer can only be 10.0.0.0/24 |
| AggregateExamples.HalvesContiguous | sumarizar.py:56-66 | two adjacent /25 halves are contiguous |
| AggregateExamples.GapNotContiguous | sumarizar.py:56-69 | two /26 blocks with a /26 gap between them are not |
| Text.Split | Comandos.py:8 | `str.split` always gives at least one piece |
| Text.JoinSplit | Comandos.py:8 | joining the pieces of a split with the separator gives the string back |
| Text.SplitJoin | Comandos.py:8 | splitting a join of separator-free pieces gives the pieces back |
| Text.SplitPiecesFree | Comandos.py:8 | no piece contains the separator |
| Text.StripTrailing | Comandos.py:9 | `strip()` removes a trailing whitespace character such as the newline `$` lets through |
| Text.Strip | Comandos.py:9 | `str.strip()`, as `int()` applies it: leading and trailing ASCII whitespace removed (its behaviour on a matched piece is `Text.StripTrailing`) |
| Text.ContainsAt | Comandos.py:22 | `sub in s` holds exactly when sub occurs at some position of s |
| Text.Contains | Comandos.py:22 | `sub in s`, tried at each start position from the left (its meaning is `Text.ContainsAt`) |
| Validation.ScanShape | Comandos.py:6-7 | the pattern automaton accepts exactly the texts whose dot-separated pieces have the pattern's shape |
| Validation.Scan | Comandos.py:6-7 | the automaton of `([0-9]{1,3}\.){3}[0-9]{1,3}`, counting the dots seen and the digits of the current group (its meaning is `Validation.ScanShape`) |
| Validation.IntOf | Comandos.py:9 | `int()` of a piece: the decimal value of its stripped text when that is a non-empty run of ASCII digits, otherwise the `ValueError` as `None` (its value on groups is `Validation.GroupInt`) |
| Validation.FullMatchGroups | Comandos.py:6-7 | the pattern matches a whole text exactly when it splits into four groups of one to three ASCII digits |
| Validation.NoFullMatchWithNewline | Comandos.py:6-7 | a text ending in a newline never matches the pattern itself, only through `$` |
| Validation.GroupInt | Comandos.py:9 | `int()` of a group, with or without a trailing newline, is its decimal value |
| Validation.MatchedPiecesParse | Comandos.py:7-9 | once the pattern matches, `int()` never raises on a piece |
| Validation.ValidIpMeaning | Comandos.py:4-11 | `validar_ip` accepts exactly four dot-separated groups of one to three digits, each at most 255, with an optional single trailing newline |
| Validation.ValidIp | Comandos.py:4-11 | `validar_ip`: the pattern matches from the start, with `$` allowing one final newline, and every piece of the split reads as an integer from 0 to 255 (its meaning is `Validation.ValidIpMeaning`) |
| Validation.IsDottedQuad | Comandos.py:4-11 | the reference definition: four dot-separated groups of one to three digits, each of value at most 255 |
| Validation.Body | Comandos.py:6 | the text checked is the input, or the input without one final newline |
| Validation.FormatIpValid | Comandos.py:4-11 | four octets written as decimal and joined by dots are accepted, and split back into those octets |
| Validation.InterfaceNameMeaning | Comandos.py:22 | a name is accepted exactly when it contains `S`, or `Fa` or `Gig` at some position |
| Validation.IsInterfaceName | Comandos.py:22 | the interface test: the text contains `Fa`, `Gig` or `S` (its meaning is `Validation.InterfaceNameMeaning`) |
| Validation.WithoutCapitalsRefused | Comandos.py:22 | a name without `F`, `G` or `S` is refused |
| ValidationExamples.LeadingZerosAccepted | Comandos.py:4-11 | 192.168.001.010 is accepted: leading zeros are read as decimal |
| ValidationExamples.OddMaskAccepted | Comandos.py:4-11 | 255.0.255.0 is accepted |
| ValidationExamples.TrailingNewlineAccepted | Comandos.py:6-10 | 1.2.3.4 followed by a newline is accepted |
| ValidationExamples.TwoNewlinesRefused | Comandos.py:6-11 | two trailing newlines are refused |
| ValidationExamples.LargeGroupRefused | Comandos.py:9-11 | 256.0.0.1 is refused |
| ValidationExamples.LongGroupRefused | Comandos.py:6-11 | a group of four digits is refused |
| ValidationExamples.ThreeGroupsRefused | Comandos.py:6-11 | three groups are refused |
| ValidationExamples.FiveGroupsRefused | Comandos.py:6-11 | five groups are refused |
| ValidationExamples.EmptyGroupRefused | Comandos.py:6-11 | an empty group is refused |
| ValidationExamples.LeadingSpaceRefused | Comandos.py:6-11 | a leading space is refused |
| ValidationExamples.CiscoNamesAccepted | Comandos.py:22 | Fa0/0, FastEthernet0/1, GigabitEthernet0/1, Serial0/0/0 and S0/0/1 are accepted |
| ValidationExamples.LowerCaseFaRefused | Comandos.py:22 | the test is case-sensitive: fa0/0 is refused |
| ValidationExamples.UpperCaseFARefused | Comandos.py:22 | a capital F alone is not enough: FA0/0 is refused |
| ValidationExamples.GiRefused | Comandos.py:22 | the short form Gi0/1 is refused |
| ValidationExamples.AnyCapitalSAccepted | Comandos.py:22 | any text holding a capital S is accepted |

## Left out

- Console I/O, the menus, the colour codes and the Packet Tracer configuration text are left out. Inputs are parameters.
- The host count prompt (`obtener_numero_equipos`) is not modelled. Its guarantee, more than two hosts, is a requirement (`Vlsm.Admissible`).
- Floating point is not used. `ceil(1.2 * n)` is `(6n + 4) / 5`, and `ceil(log2 x)` is the least k with `x <= 2^k`. These equal the float results for the host counts the tool can meet.
- Parsing the base address text (line 114) is left out: the base is an integer. An invalid base, rejected at line 119, is not modelled.
- Vlsm.Allocate: the model requires `base + Demand <= 2^32` (`Admissible`), the sum of the block sizes fitting above the base. This is stricter than "every block fits below 2^32": base 255.255.255.250 with one 3-host request gives 255.255.255.248/29, which fits, yet the model excludes it. Past the top of the IPv4 space the source does not fail: `ipaddress.ip_address(2**32)` at line 157 returns an IPv6 address, line 160 builds an IPv6 network from it without raising, and the loop carries on in IPv6 space, where `list(subred.hosts())` at line 147 is too large to finish. The model does not follow the allocation into IPv6.
- `strip('/')` on the mask text is taken as removing the leading `/`. The mask text never holds another `/`.
- No request (n == 0) is the `IndexError` at line 118; `Vlsm.Allocate` returns `None` for it.
- Aggregate.Summarize: an empty list raises `IndexError` at line 44, outside the `except ValueError`. The model requires a non-empty list.
- Aggregate.Summarize: the model requires valid (canonical) networks, which is what `ip_network` objects are.
- Picking which networks to summarize or validate from the menu (lines 165 onward) is left out, as is printing the results.
- `Text.Strip` and `Validation.IntOf` know only ASCII whitespace and ASCII digits. Signs, underscores and Unicode digits never reach `int()`, because the pattern has already excluded them.
- The regular-expression engine is not modelled. `Validation.Scan` is the automaton of the one pattern used, with `re.match` anchoring at the start and `$` also matching before a final newline.
- The static-route and router configuration menus in `Comandos.py` only print text. Only the checks they call are modelled.
- The equal-division splitter of the range tool is not in `sumarizar.py` or `Comandos.py`. It is not part of this model.

## Findings

| source | as written | input that shows it | evidently intended | confidence | as-written member | corrected member |
|---|---|---|---|---|---|---|
| sumarizar.py:45-49 | the first network is widened exactly `len - 1` times, and the search fails at the first widening that does not cover every network | 10.0.0.0/26, 10.0.0.64/26, 10.0.0.128/26 is refused although 10.0.0.0/24 covers them; 10.0.0.0/25, 10.0.0.128/26, 10.0.0.192/26 gives 10.0.0.0/23 although the /24 covers them | widen until every network is covered and return the smallest covering supernet | not executed | Aggregate.Summarize, AggregateExamples.QuartersRejected, AggregateExamples.HalfAndQuartersOverWide | Aggregate.SummarizeMinimal, AggregateExamples.QuartersMinimal |

# makeseeds in Dafny

A model of `contrib/seeds/makeseeds.py`, the script that turns the report of a DNS
seeder (one line per node it crawled) into the list of seed addresses hard-coded into
the node software. The script parses each line (`parseline`). It keeps the records that
pass five quality gates: not a suspicious host, at least `MIN_BLOCKS` blocks, the
network service bit, more than 50% uptime, and a known agent. It sorts them by
availability and drops every host seen on more than one port (`filtermultiport`). It
keeps at most `MAX_SEEDS_PER_ASN` IPv4 hosts per autonomous system and at most `NSEEDS`
IPv4 hosts in all (`filterbyasn`). Finally it sorts by network and address and prints
`host:port` or `[host]:port`.

The modules follow the script's structure:

- `Text`: the parts of Python's built-ins the script relies on.
  - `str.split()` and the `[1:]` / `[:-1]` slices.
  - `int()` in bases 10 and 16, including sign, surrounding whitespace, underscores and
    the `0x` prefix.
  - `'%i'` formatting.
- `Patterns`: the four regular expressions, written out as matchers. They include the
  `$` behaviour of also matching before a final newline. Each matcher has a lemma
  saying it accepts every text of its shape, and a lemma says that no text matches two of
  the address patterns.
- `Records`: the record `parseline` builds. `Config` holds the four constants, and
  `Defaults` has the script's own values: 512, 2, 615801 and `{""}`. This module also
  has the list comprehension (`Filter`), subsequences and key counts.
- `Parse`: `parseline` as a function. The octet loop of lines 57-61 is the method
  `PackIPv4`, proved equal to the closed form used by the parser. A line has three
  outcomes:
  - `Accepted(record)`;
  - `Skipped` (the `return None` paths);
  - `Raised`: an exception escapes, because `int()` or `float()` fails or because
    reading the agent indexes past the end of the tokens. Token reads are `Index`,
    which gives `None` past the end. The agent of lines 78-81 is built from those
    reads, and a lemma derives from them that a line of 11 or 12 tokens raises.

  `ParseAll` is the comprehension of line 141 together with the `None` filter of line
  144. Since `main` has no `try`, one raising line makes it `None`.
- `Gates`: the five comprehensions of lines 146-154.
- `Ordering`: the two sort keys. The sort is a stable insertion sort, a function proved
  sorted and a permutation. A strictly sorted permutation is unique.
- `Multiport`: `filtermultiport` as a method over a map plus the list of keys in
  insertion order (a Python dict keeps that order). It is proved equal to `Singles`:
  the records whose sort key occurs once, in input order.
- `Asn`: `filterbyasn` as a method with the script's `break` and `continue` and its
  `asn_count` map. It is proved equal to `AsnFiltered`, which is defined by folding the
  loop round `AsnStep` over the IPv4 records.
- `Seeds`: `main`. `MakeSeeds` runs the stages as the script does. It is proved equal
  to `Seeds`, and the promises of the whole script are lemmas about `Pipeline`.

Inputs from outside the script are parameters:
- `floatOf` is Python's `float()`, with `None` where it raises.
- `asnOf` is the DNS query for a host's autonomous system and the reading of its
  answer, giving `Some(asn)`, or `None` where the `try` block raises.
- The standard input is the sequence of lines.
- The printed output is the sequence of strings returned.

Behaviour of the script the model keeps:
- A failing numeric conversion in `parseline` ends the whole run; it does not skip the
  line.
- The port is any `\d+` and is not range-checked.
- An IPv6 host is any run of `[0-9a-z:]`, not only hexadecimal groups.

## Model

| member | source | states |
|---|---|---|
| Text.Split | contrib/seeds/makeseeds.py:32 | `str.split()`: every token is non-empty and holds no whitespace |
| Text.SplitJoin | contrib/seeds/makeseeds.py:32 | splitting words joined by spaces gives the words back |
| Text.SplitWord | contrib/seeds/makeseeds.py:32 | a whitespace-free word followed by any whitespace character is the first token, and the rest is split on |
| Text.SplitLastWord | contrib/seeds/makeseeds.py:32 | a non-empty whitespace-free text is one token |
| Text.SplitSkipsSpace | contrib/seeds/makeseeds.py:32 | a leading whitespace character does not change the split |
| Text.Run | contrib/seeds/makeseeds.py:26-29 | the longest prefix of one character class: all in the class, and the next character is not |
| Text.RunStopsAt | contrib/seeds/makeseeds.py:27 | a run over a word of the class stops exactly where a character outside the class follows |
| Text.RunWhole | contrib/seeds/makeseeds.py:27 | a run over a text wholly in the class takes all of it |
| Text.DropFirst | contrib/seeds/makeseeds.py:79 | `s[1:]`: everything after the first character, or empty |
| Text.DropLast | contrib/seeds/makeseeds.py:72 | `s[:-1]`: everything before the last character, or empty |
| Text.Strip | contrib/seeds/makeseeds.py:74 | `int()` ignores surrounding whitespace: no whitespace at either end, no longer than the input, and a text without whitespace is unchanged |
| Text.RemoveUnderscores | contrib/seeds/makeseeds.py:74 | the underscores `int()` allows between digits are removed: none is left |
| Text.StripSlice | contrib/seeds/makeseeds.py:74 | the stripped text is a slice of the input with only whitespace cut from either end |
| Text.RemoveUnderscoresConcat | contrib/seeds/makeseeds.py:74 | removing underscores from two texts joined is removing them from each and joining |
| Text.RemoveUnderscoresChar | contrib/seeds/makeseeds.py:74 | an underscore is removed and every other character is kept |
| Text.RemoveUnderscoresDigits | contrib/seeds/makeseeds.py:83 | grouped digits stay digits once the underscores are removed |
| Text.DigitChar | contrib/seeds/makeseeds.py:165-168 | a digit character has the value it stands for |
| Text.Decimal | contrib/seeds/makeseeds.py:165-168 | `'%i'`: non-empty decimal digits with no leading zero |
| Text.DecimalValue | contrib/seeds/makeseeds.py:165-168 | reading the printed digits back gives the number |
| Text.HexChar | contrib/seeds/makeseeds.py:83 | a hexadecimal digit character has the value it stands for |
| Text.Hex | contrib/seeds/makeseeds.py:83 | lower-case hexadecimal text of a number: non-empty hexadecimal digits with no leading zero |
| Text.HexValue | contrib/seeds/makeseeds.py:83 | reading the hexadecimal digits back in base 16 gives the number |
| Text.PyIntDecimalText | contrib/seeds/makeseeds.py:74-76 | `int()` of the decimal text of any integer, negative ones with a `-`, is that integer |
| Text.PyIntHexText | contrib/seeds/makeseeds.py:83 | `int(s, 16)` of the hexadecimal text of any integer, negative ones with a `-`, is that integer |
| Text.PyIntNegativeHex | contrib/seeds/makeseeds.py:83 | `int('-' + d, 16)` of hexadecimal digits `d` is minus their value |
| Text.NoUnderscoreInDigits | contrib/seeds/makeseeds.py:74 | plain digits are unchanged by the underscore removal |
| Text.DigitsAreGrouped | contrib/seeds/makeseeds.py:74 | plain digits are a valid digit group for `int()` |
| Text.PyIntDecimal | contrib/seeds/makeseeds.py:74 | `int('%i' % n) == n` for every `n >= 0` |
| Text.PyIntUnsigned | contrib/seeds/makeseeds.py:74 | `int()` of plain digits is their value |
| Text.PyIntSigned | contrib/seeds/makeseeds.py:74 | a leading `+` or `-` keeps or negates the value |
| Text.PyIntHex | contrib/seeds/makeseeds.py:83 | `int(s, 16)` of hexadecimal digits, with or without `0x`, is their value |
| Text.HexDigitsPlain | contrib/seeds/makeseeds.py:83 | hexadecimal digits hold no whitespace, underscore, sign or `x` |
| Text.StripSigned | contrib/seeds/makeseeds.py:74 | a signed number holds no whitespace, so `int()`'s stripping keeps it whole |
| Text.HexUnsigned | contrib/seeds/makeseeds.py:83 | hexadecimal digits, with or without `0x`, are a valid unsigned group with their own value, holding no whitespace and no sign |
| Patterns.DropFinalNewline | contrib/seeds/makeseeds.py:26-29 | `$` also matches before one final newline: the text matched is the input or the input less that newline |
| Patterns.NoNewlineKept | contrib/seeds/makeseeds.py:26-29 | a text that does not end in a newline is matched as it is |
| Patterns.OctetThen | contrib/seeds/makeseeds.py:26 | `\d{1,3}` followed by a separator: one to three digits, and the text is that group, the separator and the rest |
| Patterns.OctetThenOf | contrib/seeds/makeseeds.py:26 | every octet group followed by its separator is read back |
| Patterns.OctetsThenPort | contrib/seeds/makeseeds.py:26 | `k` dotted octet groups then `:` and `\d+`: the groups and port spell the text |
| Patterns.OctetsThenPortOf | contrib/seeds/makeseeds.py:26 | every text of that shape is read back with its own groups |
| Patterns.MatchIPv4 | contrib/seeds/makeseeds.py:26 | a match has four groups of one to three digits and a port, and spells the token |
| Patterns.MatchIPv4Complete | contrib/seeds/makeseeds.py:26 | every `a.b.c.d:port` text matches, with its own groups |
| Patterns.MatchIPv6Body | contrib/seeds/makeseeds.py:27 | `\[([0-9a-z:]+)\]:(\d+)`: the groups spell the text |
| Patterns.MatchIPv6BodyOf | contrib/seeds/makeseeds.py:27 | every `[host]:port` text of that shape is read back with its own groups |
| Patterns.MatchIPv6 | contrib/seeds/makeseeds.py:27 | a match has a host of `[0-9a-z:]` and a port, and spells the token |
| Patterns.MatchIPv6Complete | contrib/seeds/makeseeds.py:27 | every `[host]:port` text matches, with its own groups |
| Patterns.MatchOnionBody | contrib/seeds/makeseeds.py:28 | sixteen base-32 characters, `.onion`, `:` and a port: the groups spell the text |
| Patterns.MatchOnion | contrib/seeds/makeseeds.py:28 | a match is such a host and port, and spells the token |
| Patterns.MatchOnionComplete | contrib/seeds/makeseeds.py:28 | every `name.onion:port` text matches, with its own groups |
| Patterns.AgentMatchesShape | contrib/seeds/makeseeds.py:29 | every agent that matches is `/ZMGCore:2`, any character, `2`, any character, then `0/`, `1/` or `99/`, optionally with a final newline |
| Patterns.AgentTextMatches | contrib/seeds/makeseeds.py:29 | every agent text of that shape matches |
| Patterns.GrammarsExclusive | contrib/seeds/makeseeds.py:35-43 | no token matches two of the address patterns |
| Parse.Pow2 | contrib/seeds/makeseeds.py:61 | a power of two is positive |
| Parse.PackIPv4 | contrib/seeds/makeseeds.py:57-61 | the octet loop gives `None` if an octet is above 255, else the big-endian 32-bit number |
| Parse.PartialIpFull | contrib/seeds/makeseeds.py:61 | the four shifted octets summed are `o0*2^24 + o1*2^16 + o2*2^8 + o3` |
| Parse.Pow2Add | contrib/seeds/makeseeds.py:61 | shifting by `a + b` is shifting by `a`, then by `b` |
| Parse.OctetsOf | contrib/seeds/makeseeds.py:57-61 | the four octets of a 32-bit number |
| Parse.Ipv4Range | contrib/seeds/makeseeds.py:57-61 | the packed number is below 2^32 |
| Parse.Ipv4Zero | contrib/seeds/makeseeds.py:62-63 | the number is 0 exactly for `0.0.0.0` |
| Parse.Ipv4Unpack | contrib/seeds/makeseeds.py:57-61 | packing is injective: unpacking the number gives the octets back |
| Parse.Ipv4Pack | contrib/seeds/makeseeds.py:57-61 | every 32-bit number is the packing of its octets |
| Parse.OctetValues | contrib/seeds/makeseeds.py:59 | `int(m.group(i+2))`, one value per octet group |
| Parse.AddressOf | contrib/seeds/makeseeds.py:35-43 | the IPv4, IPv6 and onion patterns are tried in order; each kind is chosen exactly when its own pattern matches |
| Parse.Index | contrib/seeds/makeseeds.py:79-81 | `t[i]`: a value exactly when `i` is inside the list, and then the token at `i` |
| Parse.AgentRaises | contrib/seeds/makeseeds.py:78-81 | the agent is read exactly when the line has at least 13 tokens, and it is token 11 less its first character joined with token 12 less its last |
| Parse.QuotedAgent | contrib/seeds/makeseeds.py:78-79 | an agent split over tokens 11 and 12 between quotes is read back whole |
| Parse.ParseShort | contrib/seeds/makeseeds.py:32-34 | fewer than 11 tokens give `None` |
| Parse.LocateNone | contrib/seeds/makeseeds.py:35-67 | token 0 gives no address exactly when no pattern matches, the IPv6 host is `::`, or an octet is above 255 or the address is `0.0.0.0` |
| Parse.ParseSkipped | contrib/seeds/makeseeds.py:31-70 | `None` exactly when there are fewer than 11 tokens or token 0 gives no address |
| Parse.FieldsRaised | contrib/seeds/makeseeds.py:72-85 | the line raises exactly when it has fewer than 13 tokens or one of the five conversions fails, and the field stage never skips a line |
| Parse.LocateAddress | contrib/seeds/makeseeds.py:35-67 | the network of an address is the pattern that matched; its host and port are that pattern's groups |
| Parse.LocateIPv4Text | contrib/seeds/makeseeds.py:35-67 | a dotted text of four octets up to 255, not all zero, and a port is located as IPv4 with its number as key |
| Parse.LocateIPv6Text | contrib/seeds/makeseeds.py:35-67 | `[host]:port` with a host of `[0-9a-z:]` other than `::` is located as IPv6 with the host as key |
| Parse.LocateOnionText | contrib/seeds/makeseeds.py:35-67 | `name.onion:port` with sixteen base-32 characters is located as onion with the host as key |
| Parse.SameHostSameKey | contrib/seeds/makeseeds.py:35-67 | two well-formed records with the same host have the same network and the same sort key |
| Parse.LocateWellFormed | contrib/seeds/makeseeds.py:35-67 | an IPv4 address has four octet groups, a number in 1 to 2^32-1 and that number as key; an IPv6 or onion address has its host of the pattern's shape as key and no number |
| Parse.ParseWellFormed | contrib/seeds/makeseeds.py:31-99 | every accepted record is well formed: the network fixes the host's shape, the number and the sort key, and the agent holds no whitespace |
| Parse.AgentNoSpace | contrib/seeds/makeseeds.py:79 | the agent cut from two tokens holds no whitespace |
| Parse.ParseIgnoresToken1 | contrib/seeds/makeseeds.py:69-70 | token 1 never influences the result: comparing a string with `0` is never true |
| Parse.Gather | contrib/seeds/makeseeds.py:144 | dropping the `None`s: no list when some line raised, else exactly the accepted records |
| Parse.ParseAll | contrib/seeds/makeseeds.py:141-144 | `None` exactly when some line raises; otherwise the records are exactly those of the accepted lines |
| Parse.GatherConcat | contrib/seeds/makeseeds.py:144 | dropping the `None`s from two lists joined: no list if either holds a raise, else the two results joined |
| Parse.GatherOne | contrib/seeds/makeseeds.py:144 | an accepted line gives its record, a skipped line nothing, and a raising line no list |
| Parse.ParseEachConcat | contrib/seeds/makeseeds.py:141 | the comprehension over two lists of lines joined is the two comprehensions joined |
| Parse.ParseAllConcat | contrib/seeds/makeseeds.py:141-144 | parsing two lists of lines joined: `None` if either raises, else the two record lists joined |
| Parse.ParseAllOne | contrib/seeds/makeseeds.py:141-144 | one line gives its record, nothing, or `None`, as `parseline` accepts, skips or raises |
| Parse.ParseAllPerm | contrib/seeds/makeseeds.py:141-144 | reordering the lines neither makes a raise appear nor changes which records are read |
| Parse.ParsedWellFormed | contrib/seeds/makeseeds.py:31-144 | every record read from the input is well formed |
| Records.Filter | contrib/seeds/makeseeds.py:144-154 | a comprehension `[x for x in s if p(x)]` keeps exactly the elements meeting `p` |
| Records.FilterIsSubseq | contrib/seeds/makeseeds.py:144-154 | a comprehension keeps the input order |
| Records.FilterConcat | contrib/seeds/makeseeds.py:111-113 | a comprehension over two lists joined is the two comprehensions joined |
| Records.FilterTwice | contrib/seeds/makeseeds.py:144-154 | two comprehensions in a row are one with both conditions |
| Records.FilterPerm | contrib/seeds/makeseeds.py:111-113 | comprehensions over permutations of a list are permutations of each other |
| Records.KeyCount | contrib/seeds/makeseeds.py:103-105 | the length of a key's list in the histogram: positive exactly when the key occurs |
| Records.UniqueKeysCount | contrib/seeds/makeseeds.py:103-105 | no key occurs twice exactly when every count is at most one |
| Records.KeyCountPerm | contrib/seeds/makeseeds.py:103-105 | the count of a key does not depend on the order of the list |
| Records.KeyCountByNet | contrib/seeds/makeseeds.py:111-113 | a key's count is the sum of its counts in the IPv4, IPv6 and onion lists |
| Records.SubseqKeyCount | contrib/seeds/makeseeds.py:116-131 | a subsequence holds no key more often than the list it is taken from |
| Gates.ReplaceSpaces | contrib/seeds/makeseeds.py:154 | `re.sub(' ', '-', s)`: same length, each space turned into a dash, every other character kept |
| Gates.QualityFilter | contrib/seeds/makeseeds.py:144-154 | a record survives the five comprehensions exactly when it passes all five gates |
| Gates.QualityFilterIsOneFilter | contrib/seeds/makeseeds.py:144-154 | the five comprehensions in a row are the one comprehension with all five conditions |
| Gates.QualityFilterKeepsOrder | contrib/seeds/makeseeds.py:144-154 | the survivors keep their relative order |
| Gates.ReplaceSpacesNoSpace | contrib/seeds/makeseeds.py:154 | a parsed agent holds no space, so the substitution leaves it unchanged |
| Ordering.StrLtIrreflexive | contrib/seeds/makeseeds.py:156 | string order is irreflexive |
| Ordering.StrLtTrans | contrib/seeds/makeseeds.py:156 | string order is transitive |
| Ordering.StrLtTotal | contrib/seeds/makeseeds.py:156 | of two different strings one is smaller |
| Ordering.NetNameOrder | contrib/seeds/makeseeds.py:162 | `'ipv4' < 'ipv6' < 'onion'` as Python compares strings |
| Ordering.KeyLtTotal | contrib/seeds/makeseeds.py:162 | of two different sort keys one is smaller |
| Ordering.BeforeAsym | contrib/seeds/makeseeds.py:156-162 | both sort orders are asymmetric |
| Ordering.BeforeNegTrans | contrib/seeds/makeseeds.py:156-162 | "not after" is transitive in both sort orders |
| Ordering.NetKeyTotal | contrib/seeds/makeseeds.py:162 | records with different sort keys are ordered one way or the other by `(net, sortkey)` |
| Ordering.Insert | contrib/seeds/makeseeds.py:156 | inserting into a sorted list keeps it sorted and adds exactly the one record |
| Ordering.Sort | contrib/seeds/makeseeds.py:156 | `list.sort`: the result is sorted and a permutation of the input |
| Ordering.SortedSubseq | contrib/seeds/makeseeds.py:156-158 | a subsequence of a sorted list is sorted |
| Ordering.SortedUniqueIsStrict | contrib/seeds/makeseeds.py:162 | sorted by `(net, sortkey)` with no key twice means strictly increasing |
| Ordering.StrictlySortedUnique | contrib/seeds/makeseeds.py:162 | two strictly sorted permutations of each other are equal |
| Multiport.FilterMultiport | contrib/seeds/makeseeds.py:101-106 | the histogram loop returns the records whose sort key occurs once, in input order |
| Multiport.StepNew | contrib/seeds/makeseeds.py:104-105 | the first record of a key opens its list at the end of the dict |
| Multiport.StepOld | contrib/seeds/makeseeds.py:104-105 | a further record of a key grows its list and drops the key from the result |
| Multiport.SinglesNew | contrib/seeds/makeseeds.py:104-106 | a record with a new key is appended to the result |
| Multiport.SinglesOld | contrib/seeds/makeseeds.py:104-106 | a record with a key already seen removes that key from the result |
| Multiport.SinglesMembers | contrib/seeds/makeseeds.py:106 | a record is kept exactly when its key occurs once |
| Multiport.SinglesUnique | contrib/seeds/makeseeds.py:101-106 | no two kept records share a sort key |
| Multiport.SinglesSorted | contrib/seeds/makeseeds.py:106 | the kept records are a subsequence, so the availability order survives |
| Multiport.SinglesPerm | contrib/seeds/makeseeds.py:101-106 | which records are kept does not depend on the input order |
| Asn.FilterByAsn | contrib/seeds/makeseeds.py:109-137 | the result is `AsnFiltered`: the capped IPv4 list, then every IPv6 record, then every onion record |
| Asn.CapIPv4 | contrib/seeds/makeseeds.py:116-131 | the `break`/`continue` loop computes the fold of `AsnStep` over the IPv4 records |
| Asn.AsnRunPrefix | contrib/seeds/makeseeds.py:118-131 | one more record is one more round of the loop |
| Asn.AsnRunFull | contrib/seeds/makeseeds.py:119-120 | once `result` holds `max_total` records nothing changes, so the `break` is the fold's remainder |
| Asn.AsnRunCounts | contrib/seeds/makeseeds.py:123-127 | `asn_count[asn]` is the number of accepted records in that system |
| Asn.AsnRunCaps | contrib/seeds/makeseeds.py:119-127 | with non-negative limits, no count passes `max_per_asn` and `result` never passes `max_total` |
| Asn.AsnRunSubseq | contrib/seeds/makeseeds.py:121-131 | every accepted record was looked up successfully, and the accepted records keep their order |
| Asn.AsnRunInvariant | contrib/seeds/makeseeds.py:116-131 | the loop's invariant: counts match, caps hold, lookups succeeded, order kept |
| Asn.AsnTotalCap | contrib/seeds/makeseeds.py:119-120 | at most `max_total` IPv4 records |
| Asn.AsnPerSystemCap | contrib/seeds/makeseeds.py:123-127 | at most `max_per_asn` IPv4 records per autonomous system |
| Asn.AsnResolvedInOrder | contrib/seeds/makeseeds.py:121-131 | no record with a failed lookup is kept; the kept ones are in input order |
| Asn.AsnSkipReason | contrib/seeds/makeseeds.py:119-131 | a record is appended, or else the result was full, its lookup failed, or its system was at the cap |
| Asn.AsnFilteredShape | contrib/seeds/makeseeds.py:111-137 | by network: the IPv4 records are the capped list, and the IPv6 and onion records are all kept in order |
| Asn.AsnFilteredMembers | contrib/seeds/makeseeds.py:109-137 | every record of the result is one of the input's |
| Asn.FilterOneNet | contrib/seeds/makeseeds.py:111-113 | filtering records of one network by network keeps all or none |
| Asn.AsnFilteredUnique | contrib/seeds/makeseeds.py:109-137 | no sort key is repeated in the result if none was in the input |
| Seeds.LocateFormat | contrib/seeds/makeseeds.py:164-168 | a printed seed is located again as the record's own network, host, port, number and sort key |
| Seeds.ParseTokensOf | contrib/seeds/makeseeds.py:31-99 | tokens holding a record's printed address, its numbers in decimal and hexadecimal, its uptime with `%` and its agent split between quotes are parsed back to that record |
| Seeds.ParseLineOf | contrib/seeds/makeseeds.py:31-99 | those tokens joined by spaces, each non-empty and without whitespace, are a line that parses back to the record |
| Seeds.FormatReparses | contrib/seeds/makeseeds.py:164-168 | a printed seed, read back with the address patterns, names the record's own network, host and port |
| Seeds.SeedLines | contrib/seeds/makeseeds.py:164-168 | one line per seed, in order, each the seed's format |
| Seeds.Seeds | contrib/seeds/makeseeds.py:139-168 | the script fails exactly when some line makes `parseline` raise |
| Seeds.MakeSeeds | contrib/seeds/makeseeds.py:139-168 | `main`, stage by stage, prints what `Seeds` says |
| Seeds.PrintSeeds | contrib/seeds/makeseeds.py:164-168 | the printing loop produces one formatted line per seed |
| Seeds.PipelineStages | contrib/seeds/makeseeds.py:144-158 | before the cap: exactly the records passing the gates whose key is unique among them, no key twice, in availability order |
| Seeds.PipelineProvenance | contrib/seeds/makeseeds.py:141-162 | every seed was read from the input, passed all five gates, and shares its host with no other surviving record |
| Seeds.PipelineKeepsNonIPv4 | contrib/seeds/makeseeds.py:133-136 | an IPv6 or onion record is a seed exactly when it passed the gates and shares its host with no other survivor |
| Seeds.PipelineIPv4 | contrib/seeds/makeseeds.py:160-162 | the IPv4 seeds are exactly the records the ASN cap kept |
| Seeds.PipelineCaps | contrib/seeds/makeseeds.py:160 | at most `NSEEDS` IPv4 seeds, at most `MAX_SEEDS_PER_ASN` per autonomous system, each with a successful lookup |
| Seeds.PipelineSorted | contrib/seeds/makeseeds.py:162 | the seeds are in strictly increasing `(net, sortkey)` order |
| Seeds.PipelineCanonical | contrib/seeds/makeseeds.py:162 | the output order is the only strictly sorted order of the seeds |
| Seeds.TiedShareKey | contrib/seeds/makeseeds.py:156 | two well-formed records tied on `(uptime, lastsuccess, ip)` share a sort key |
| Seeds.SinglesStrict | contrib/seeds/makeseeds.py:156-158 | after `filtermultiport` nothing ties, so the availability order is strict |
| Seeds.SortedFromInput | contrib/seeds/makeseeds.py:144-156 | gating and sorting well-formed records keeps them well formed |
| Seeds.PipelineOrderFree | contrib/seeds/makeseeds.py:144-162 | for well-formed records, the order they arrive in does not change the seeds |
| Seeds.SeedsOrderFree | contrib/seeds/makeseeds.py:139-168 | reordering the input lines does not change what the script prints or whether it fails |
| Seeds.SeedsReparse | contrib/seeds/makeseeds.py:139-168 | every printed line names the network, host and port of an input record that passed all five gates |

## Left out

- Reading standard input and printing to standard output are not modelled as I/O. The
  lines are a parameter and the printed lines are the result.
- The diagnostic written to standard error when a lookup fails is not modelled.
- The DNS query of line 122 is the parameter `asnOf`. This covers building the
  reversed-octet name, the network round trip, reading the answer and the bare
  `except`. Together they give the system's number or a failure.
- `float()` is the parameter `floatOf`. NaN and the infinities are not modelled:
  uptimes are Dafny reals, so the comparisons of lines 152 and 156 are total.
- `\d` and `int()` accept only the ASCII digits here. Python also accepts other Unicode
  decimal digits.
- The two calls to `list.sort` are the pure function `Ordering.Sort`, a stable insertion
  sort. The model does not sort the list in place.
- Ordering.Sort: the contract states sorted and a permutation but not stability. Ties
  come out in the order a stable sort gives, by the definition of `Insert`, with no
  lemma stating it.
- The dict of `filtermultiport` is a map plus the sequence of its keys in insertion
  order.
- Python raises on comparing an integer sort key with a string one. The model orders
  every integer key before every string key instead. This is never reached, because
  two records of the same network have keys of the same kind and the network name is
  compared first.
- The `< 0` test of line 59 is never true, because `\d` matches no sign. It has no
  counterpart.
- `int()` in CPython 3.11 and later (and in the 2022 security releases of 3.7 to 3.10)
  raises `ValueError` on base-10 text of more than 4300 digits, a limit set by
  `sys.set_int_max_str_digits`. It depends on the Python version and its settings, so
  the model reads decimal text of any length.

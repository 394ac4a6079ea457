# unveil — a verified model of its core logic

unveil is a command-line tool. It checks whether an IPv4 address is listed on
DNS blocklists (DNSBLs), collects provider lists from scrapers, resolves
command aliases, and looks up MAC address vendors. This project models the
logic at the heart of those features and proves properties of it:

- **IPv4 validation and reversal** (`IpUtil`, `IpClass`).
  - The validator's regular expression is modelled by its own semantics: the
    octet alternation, the optional dot, `\b`, the `{4}` repetition, and `$`,
    which may also match just before one final newline.
  - These semantics are proved equal to a plain reading: four dot-separated
    octets from 0 to 255, with no leading zero.
  - The reversal builds the query name of section 2.1 of RFC 5782.
- **The blocklist check loop** (`Dnsbl`, `CheckCommand`, `UnveilApp`).
  - DNS is a given function from a list position, a query name and a record
    type to a lookup result. The position is part of the key because every
    list entry is queried afresh, so a repeated provider need not get the
    same answer twice.
  - Both copies of the `check` loop are imperative methods. Each is proved
    against one specification: the fold `Tally` of `Step` over the outcome of
    every provider.
  - Lemmas about that fold give what the counters mean. `bad` counts the
    providers whose A and TXT lookups both answered. `good` counts the NXDOMAIN
    results, plus the inconclusive ones in verbose mode. `bad <= total <=`
    the number of providers.
- **Provider aggregation** (`Scraping`). Each scraper's `_fetch` is a given
  list, or a failure that turns into `[]`. `fetch` concatenates the lists in
  a loop and deduplicates them through a set.
- **Command aliases** (`Alias`). The `", ?"` split is an explicit function.
  The first-match search is a recursive function.
- **MAC and OUI helpers** (`MacUtil`, on top of `Numerals` for `int(s, 16)`
  and `f"{n:012X}"`, and `Text` for the `str` methods):
  - normalisation to an OUI key;
  - the private-vendor test;
  - the block-size table;
  - country-code extraction;
  - integer and MAC conversion;
  - block ranges;
  - classification by the I/G and U/L bits of the first octet (IEEE Std
    802-2014, clause 8).

Python's `int(s, 16)` and `int(...)` raising `ValueError` become `None`
results. `s[i:j]`, `str.split`, `str.strip`, `str.upper`, `str.ljust` and
`str.join` are written out in `Text`.

## Model

| member | source | states |
|---|---|---|
| IpUtil.ValidateIp | unveil/utils/ip.py:8 | accepted exactly when the string is a dotted quad (four dot-separated octets 0–255 without leading zeros), the single final newline that `$` allows aside |
| IpUtil.MatchGroupsFields | unveil/utils/ip.py:8 | the regex group repeated n times and then `$` matches exactly when the string is n dot-separated octet fields, both directions |
| IpUtil.MatchFields | unveil/utils/ip.py:8 | every successful regex match spells octet fields |
| IpUtil.FieldsMatch | unveil/utils/ip.py:8 | octet fields are always matched by the regex |
| IpUtil.OctetAltIsOctet | unveil/utils/ip.py:8 | the octet alternation of the pattern accepts exactly the decimal numerals of 0..255 without a leading zero |
| IpUtil.LongNumeral | unveil/utils/ip.py:8 | four or more digits without a leading zero exceed 255, so no octet is longer than three digits |
| IpUtil.ValidateIpNewline | unveil/utils/ip.py:8 | one final newline after an address is accepted when the address is; two newlines never are |
| IpUtil.DottedQuadOf | unveil/utils/ip.py:8 | four octet tokens joined by dots form a dotted quad |
| IpUtil.NotDottedQuadOf | unveil/utils/ip.py:8 | a field that is not an octet spoils the quad |
| IpUtil.ThreeFields | unveil/utils/ip.py:8 | three dot-free fields are never a dotted quad |
| IpUtil.FiveFields | unveil/utils/ip.py:8 | five dot-free fields are never a dotted quad |
| IpUtil.ValidateIpAccepts | unveil/utils/ip.py:8 | "192.168.0.1" is accepted |
| IpUtil.ValidateIpAcceptsMax | unveil/utils/ip.py:8 | "255.255.255.255" is accepted |
| IpUtil.ValidateIpAcceptsZero | unveil/utils/ip.py:8 | "0.0.0.0" is accepted |
| IpUtil.RejectsThreeFields | unveil/utils/ip.py:8 | "1.2.3" is rejected |
| IpUtil.RejectsFiveFields | unveil/utils/ip.py:8 | "1.2.3.4.5" is rejected |
| IpUtil.RejectsTrailingDot | unveil/utils/ip.py:8 | "1.2.3.4." is rejected |
| IpUtil.RejectsLargeOctet | unveil/utils/ip.py:8 | "256.1.1.1" is rejected |
| IpUtil.RejectsLeadingZero | unveil/utils/ip.py:8 | "01.2.3.4" is rejected |
| IpUtil.NewlineAccepted | unveil/utils/ip.py:8 | "1.2.3.4\n" is accepted, because `$` matches before a final newline |
| IpUtil.ReverseIp | unveil/utils/ip.py:16 | the dot-split of the result is the reverse of the dot-split of the input |
| IpUtil.ReverseIpInvolution | unveil/utils/ip.py:16 | reversing twice gives back any string |
| IpUtil.ReverseIpLength | unveil/utils/ip.py:16 | the reversal keeps the length of any string |
| IpUtil.ReverseIpQuad | unveil/utils/ip.py:16 | a dotted quad reverses to a dotted quad whose k-th octet is the input's (3-k)-th |
| IpUtil.ReverseIpOfFields | unveil/utils/ip.py:16 | `a.b.c.d` reverses to `d.c.b.a` for any dot-free fields |
| IpUtil.ReverseValidIp | unveil/utils/ip.py:8-16 | an accepted address without a final newline reverses to an accepted address |
| IpUtil.ReverseIpNewline | unveil/utils/ip.py:8-16 | an address with one final newline is accepted, but its reversal is not |
| IpUtil.NewlineReversalNotQuad | unveil/utils/ip.py:16 | the reversal of a dotted quad with a final newline is not a dotted quad |
| IpClass.IPv4.constructor | unveil/ip.py:18-26 | the three arguments are stored unchanged in `ip`, `country` and `cc` |
| IpClass.IPv4.ValidateIp | unveil/ip.py:28-31 | agrees with the module-level validator on every string, and so accepts exactly the dotted quads; it reads no field |
| IpClass.ValidateIpIndependent | unveil/ip.py:28-31 | two objects give the same answer on every string |
| IpClass.ValidateIpExamples | unveil/ip.py:30 | accepts "0.0.0.0" and "255.255.255.255"; rejects "256.1.1.1", "01.2.3.4", "1.2.3" and "1.2.3.4.5" |
| Dnsbl.QueryName | unveil/commands/check.py:91 | the labels of the query name are the labels of the reversed address followed by the labels of the provider |
| Dnsbl.QueryNameOfAddress | unveil/commands/check.py:58-91 | the query's labels are the address's fields, last first, then the provider's labels; for a dotted quad, label k is octet 3-k |
| Dnsbl.Lookup | unveil/commands/check.py:98-99 | the outcome is a hit exactly when A and TXT both answer; an A failure decides; after an A answer the TXT result decides; the results are those of the provider's own position in the list |
| Dnsbl.Step | unveil/commands/check.py:101-128 | `bad` grows by one for a hit; `good` grows by one for NXDOMAIN, or for an inconclusive result in verbose mode; nothing else changes |
| Dnsbl.ProviderEffect | unveil/commands/check.py:98-128 | per provider: `bad` grows exactly when both lookups answer; NXDOMAIN from either lookup adds one to `good`; inconclusive results in quiet mode and other exceptions change nothing; `good + bad` grows by at most one |
| Dnsbl.TallyCounts | unveil/commands/check.py:107-125 | after the loop, `bad` is the number of hits and `good` the number of NXDOMAIN results, plus the inconclusive ones in verbose mode |
| Dnsbl.TallyBound | unveil/commands/check.py:135 | `bad <= good + bad <= len(blacklists)`; the gap is the errors, plus the inconclusive results in quiet mode |
| Dnsbl.TallyVerbose | unveil/commands/check.py:111-125 | verbose mode leaves `bad` unchanged and can only raise `good` |
| Dnsbl.TallyOrder | unveil/commands/check.py:86-130 | the counters depend only on the multiset of outcomes, not on the provider order |
| Dnsbl.RepeatedProviderMayDiffer | unveil/commands/check.py:86-99 | every list entry is queried afresh: a provider listed twice can time out once and be found clean the next time |
| Dnsbl.Lines | unveil/commands/check.py:66-67 | the lines of the file, none containing a newline; `readlines()` keeps each line's final newline, which the model drops because the `strip()` that follows removes it anyway |
| Dnsbl.ProviderLines | unveil/commands/check.py:67 | one entry per line, in file order; no entry holds a newline or starts or ends with whitespace; an entry is empty exactly when its line is all whitespace, so blank lines stay as empty strings |
| Dnsbl.LinesOfWritten | unveil/unveil.py:250-256 | newline-free entries written one per line are read back as the same lines |
| Dnsbl.ProviderLinesOfWritten | unveil/commands/check.py:67 | entries without newlines or surrounding whitespace, written one per line, read back as themselves |
| Dnsbl.LinesConcat | unveil/commands/check.py:66-67 | after a text that is empty or ends with a newline, the lines of what follows come after that text's own lines |
| Dnsbl.LinesAppended | unveil/unveil.py:248-256 | newline-free entries appended to a text that is empty or ends with a newline are read back after that text's lines |
| Dnsbl.ProviderLinesAppended | unveil/commands/check.py:67 | appending strip-stable, newline-free entries to such a provider file extends its providers by exactly those entries |
| CheckCommand.LoadProviders | unveil/commands/check.py:64-74 | a custom file gives its stripped lines, and a file that cannot be opened ends the command; otherwise the providers are exactly those some scraper returned, without duplicates |
| CheckCommand.QueryProviders | unveil/commands/check.py:81-130 | the counters equal the tally of the providers' outcomes; `iteration` and the progress advances equal the number of providers; query k is `reversed_ip + "." + provider k` |
| CheckCommand.Check | unveil/commands/check.py:58-136 | the summary counts the listings of the address over the loaded providers, with `total == good + bad` and `bad <= total <= len(blacklists)`; the providers are the file's stripped lines, or the scrapers' union without duplicates |
| UnveilApp.AppState.constructor | unveil/unveil.py:27 | the state starts with verbose off and no output |
| UnveilApp.AppState.Callback | unveil/unveil.py:71-75 | verbose becomes old verbose or the flag, never reset; output is replaced only by a non-empty value |
| UnveilApp.QueryProviders | unveil/unveil.py:112-155 | the counters equal the tally of the providers' outcomes under the state's verbose flag |
| UnveilApp.Check | unveil/unveil.py:100-157 | the summary counts the listings over the loaded providers, with `total == good + bad` and `bad <= total <= len(blacklists)`; the providers are the file's stripped lines, or the scrapers' union without duplicates |
| UnveilApp.Select | unveil/unveil.py:251-266 | a positive limit selects the first `min(limit, n)` providers; any other limit selects all of them |
| UnveilApp.SelectOrder | unveil/unveil.py:251-266 | the i-th selected provider is the i-th provider, and a limit of zero or less keeps the whole list |
| UnveilApp.WriteLines | unveil/unveil.py:250-256 | the written text is each selected provider followed by a newline, in order |
| UnveilApp.Blacklists | unveil/unveil.py:244-266 | the providers are exactly the scrapers' union, without duplicates; with a truthy output path, the selection is appended or written to it depending on whether the path exists; otherwise it is shown joined by newlines |
| UnveilApp.WrittenProvidersReadBack | unveil/unveil.py:250-256 | when every provider is newline-free and has no surrounding whitespace, a file freshly written by `blacklists` (mode "w") reads back in `check` as the selected providers |
| UnveilApp.AppendedProvidersReadBack | unveil/unveil.py:248-256 | under the same condition, in append mode (mode "a") a file that was empty or ended with a newline reads back as its earlier providers followed by the selected ones |
| Scraping.Concatenated | unveil/scraper.py:58-65 | a string is in the concatenation exactly when some scraper returned it |
| Scraping.ConcatenatedSkipsFailure | unveil/scraper.py:24-26 | a failing scraper contributes nothing and the others are still included |
| Scraping.ConcatenatedLength | unveil/scraper.py:61-63 | the concatenation is as long as all scraper lists together |
| Scraping.SetOfSeqSize | unveil/scraper.py:11-12 | the set of a list has no more elements than the list |
| Scraping.Deduplicate | unveil/scraper.py:11-12 | the result has no repeated elements, the same elements as the input, and is no longer |
| Scraping.Scraper.constructor | unveil/scraper.py:55-56 | the scrapers are stored unchanged |
| Scraping.Scraper.Fetch | unveil/scraper.py:58-65 | a string is in the result exactly when some scraper returned it; no duplicates; no longer than all lists together; no scrapers give `[]` |
| Alias.CmdSplit | unveil/alias.py:7 | as many pieces as comma-separated fields, none containing a comma, the first one unchanged |
| Alias.CmdSplitJoin | unveil/alias.py:7 | comma-free aliases joined by ", " split back into exactly those aliases |
| Alias.SplitCommaSpace | unveil/alias.py:7 | splitting a ", " join at the commas leaves every part but the first behind one space |
| Alias.CmdSplitSingle | unveil/alias.py:7 | a name without a comma is a single alias |
| Alias.GroupCmdName | unveil/alias.py:13-18 | the name of the first command that answers to the input; the input itself when none does; always the input or a registered name |
| Alias.GroupCmdNameSkipsUnnamed | unveil/alias.py:15 | a command with no name or an empty name never affects the result |
| Alias.SingleAnswers | unveil/alias.py:15 | a single-name command answers exactly to its own non-empty name |
| Alias.NotSingleCommands | unveil/alias.py:14-16 | "blacklists" and "providers" do not match `check`, `validate` or `ip` |
| Alias.BlacklistsAliases | unveil/unveil.py:230-231 | both "blacklists" and "providers" resolve to "blacklists, providers" |
| Alias.PlainCommand | unveil/alias.py:13-18 | "check" resolves to itself |
| MacUtil.Pairs | unveil/utils/mac.py:14 | `count` groups of at most two characters, group k being exactly characters 2k and 2k+1 wherever the string is that long |
| MacUtil.PairsPrefix | unveil/utils/mac.py:14 | when the string has at least `count` pairs, the groups concatenate to its first `2 * count` characters |
| MacUtil.JoinPairs | unveil/utils/mac.py:14 | the pairs of a string of exactly `count` pairs concatenate back to it |
| MacUtil.CleanedIsClean | unveil/utils/mac.py:12 | after line 12 no dash, dot, space or lower-case letter remains |
| MacUtil.NormalizeMac | unveil/utils/mac.py:11-15 | the key has no `:`, `-`, `.` or space, no lower-case letter, and at most 8 characters |
| MacUtil.NormalizeMacIdempotent | unveil/utils/mac.py:11-15 | normalising a key again changes nothing |
| MacUtil.GroupedPrefix | unveil/utils/mac.py:14-15 | a grouped 12-character address has 17 characters, and its 8-character cut without colons is its first 6 characters |
| MacUtil.NormalizeBareMac | unveil/utils/mac.py:13-15 | a bare 12-digit address gives its first six digits, upper-cased |
| MacUtil.NormalizeColonMac | unveil/utils/mac.py:11-15 | a colon-separated address gives its first six digits, upper-cased |
| MacUtil.NormalizeDashMac | unveil/utils/mac.py:11-15 | a dash-separated address gives its first six digits, upper-cased |
| MacUtil.NormalizeDottedMac | unveil/utils/mac.py:11-15 | a dotted `xxxx.xxxx.xxxx` address gives its first six digits, upper-cased |
| MacUtil.IsPrivateVendor | unveil/utils/mac.py:18-22 | holds exactly when the trimmed, upper-cased name is "PRIVATE" and the address is all whitespace; so a vendor with a published address is never private |
| MacUtil.PrivateVendorPadded | unveil/utils/mac.py:18-22 | surrounding whitespace and letter case of the name do not matter |
| MacUtil.BlockSizeOfPrefix | unveil/utils/mac.py:25-26 | after trimming and upper-casing, MA-L, MA-M and MA-S give 2^(48 - prefix bits) addresses (2^24, 2^20, 2^12); anything else gives "Unknown" |
| MacUtil.BlockSizesInHexDigits | unveil/utils/mac.py:8 | the table's 2^24, 2^20 and 2^12 are 16^6, 16^5 and 16^3 |
| MacUtil.FormatBlockSize | unveil/utils/mac.py:93-102 | "Unknown" for an unknown size; the float branches (1000 or more) are not rendered |
| MacUtil.FormatSmallBlock | unveil/utils/mac.py:101-102 | a size below 1000 prints as its decimal numeral, without leading zeros, then " addresses" |
| MacUtil.OuiToIntHex | unveil/utils/mac.py:38-39 | a non-empty hex string parses to its value |
| MacUtil.OuiRoundTrip | unveil/utils/mac.py:38-39 | a number formatted to `w` hex digits parses back to itself |
| MacUtil.MacHex | unveil/utils/mac.py:43 | below 2^48, `f"{n:012X}"` is the 12 fixed-width digits of n, which spell n |
| MacUtil.SplitMacPairs | unveil/utils/mac.py:44 | the colon join of the pairs of a hex string splits back into those pairs |
| MacUtil.FixedHexPairs | unveil/utils/mac.py:43-44 | the six pairs of 12 fixed-width digits are upper-case hex pairs |
| MacUtil.IntToMacGroups | unveil/utils/mac.py:42-44 | for 0 <= n < 2^48 the address is six colon-separated upper-case hex pairs whose concatenation spells n |
| MacUtil.FormatHexNotUnknown | unveil/utils/mac.py:59 | formatted hex is never the word "Unknown" |
| MacUtil.ParsedOui | unveil/utils/mac.py:48-49 | the padded, upper-cased OUI parses to the value of its start address, which formats back to that address |
| MacUtil.MacRangeStart | unveil/utils/mac.py:47-49 | a hex OUI always has a range, starting at its padded value |
| MacUtil.MacRangeUnknown | unveil/utils/mac.py:50-59 | without a known size, the end and the displayed end are "Unknown" |
| MacUtil.RangeWithoutEnd | unveil/utils/mac.py:50-59 | for an unknown size the end is "Unknown" and the display ends with "Unknown" |
| MacUtil.RangeWithEnd | unveil/utils/mac.py:49-59 | for a known size the end is `start + size - 1` in 12 digits, and the display shows both ends with colons |
| MacUtil.MacRangeOfOui | unveil/utils/mac.py:47-60 | `start_block` is the upper-cased OUI padded with '0' to 12 digits; `end_block` spells `start + size - 1`; the display joins both in colon form |
| MacUtil.MacRangeEnds | unveil/utils/mac.py:49-54 | the start and end blocks of a known size, as in MacRangeOfOui |
| MacUtil.MacRangeDisplay | unveil/utils/mac.py:59 | the display of a known size, as in MacRangeOfOui |
| MacUtil.AssignedBlock | unveil/utils/mac.py:47-60 | the block of 16^d addresses of an OUI of 12 - d digits starts at the OUI followed by zeros |
| MacUtil.BlockEndValue | unveil/utils/mac.py:51 | the OUI followed by d 'F's is worth 16^d - 1 more than its start |
| MacUtil.EndOfBlock | unveil/utils/mac.py:51 | a block whose last address has the digits `last` ends at `last` |
| MacUtil.AssignedBlockEnd | unveil/utils/mac.py:47-54 | the block of 16^d addresses ends at the upper-cased OUI followed by d 'F's |
| MacUtil.ClassifyMac | unveil/utils/mac.py:64-81 | a result exactly when `int(mac_clean[:2], 16)` parses (so also for a one-character remainder, or one with a sign or surrounding whitespace); "Multicast…" exactly when bit 0 is set, otherwise "Unicast…"; "… (Locally Administered)" exactly when bit 1 is set, otherwise "… (Globally Unique)"; `is_random` exactly when bit 1 is clear |
| MacUtil.LabelParts | unveil/utils/mac.py:70-78 | the two halves of a label can be read back from it |
| MacUtil.BitOfShift | unveil/utils/mac.py:66-68 | bit j of n shifted right by k is bit k + j of n |
| MacUtil.CleanIntToMac | unveil/utils/mac.py:65 | removing the separators of a formatted address gives its 12 digits |
| MacUtil.LeadingPair | unveil/utils/mac.py:66 | the two leading digits of 12 spell the number shifted right by 40 bits |
| MacUtil.FirstByteOfIntToMac | unveil/utils/mac.py:65-66 | the first octet of a formatted address is the top octet of the number |
| MacUtil.ClassifyShifted | unveil/utils/mac.py:66-80 | when the first octet is n shifted right by k, the label and `is_random` follow bits k and k + 1 of n |
| MacUtil.ClassifyIntToMac | unveil/utils/mac.py:64-81 | for a 48-bit address, Multicast follows bit 40, Locally Administered bit 41, and `is_random` is the negation of bit 41 |
| MacUtil.MatchNotNext | unveil/utils/mac.py:33 | two matches of `\b[A-Z]{2}\b` never overlap |
| MacUtil.FindAllWords | unveil/utils/mac.py:33 | every word found is two capital letters |
| MacUtil.KeepCodesSubset | unveil/utils/mac.py:34 | only country codes among the words are kept, and never more words |
| MacUtil.CountryCode | unveil/utils/mac.py:29-35 | the result is "Unknown" or a two-capital-letter code of the ISO set |
| MacUtil.NoCodesFrom | unveil/utils/mac.py:33-34 | no code from a position on means no code kept from there |
| MacUtil.LastCodeFrom | unveil/utils/mac.py:33-35 | the codes kept from any position up to the last code end with that code |
| MacUtil.CountryCodeLast | unveil/utils/mac.py:33-35 | the result is the code at the last position that holds one |
| MacUtil.CountryCodeNone | unveil/utils/mac.py:30-35 | with no code, an empty address included, the result is "Unknown" |
| MacUtil.CountryCodeUnknown | unveil/utils/mac.py:29-35 | the result is "Unknown" exactly when the address holds no country code |
| Numerals.ParseHexDigits | unveil/utils/mac.py:39 | `int(s, 16)` of a non-empty string of hex digits is its value |
| Numerals.GroupedHexValue | unveil/utils/mac.py:39 | a value exactly when the digits are well-formed with single underscores between them |
| Numerals.HexValueOfFixedHexFits | unveil/utils/mac.py:43 | the fixed-width digits of a number that fits spell that number |
| Numerals.FormatHexFixed | unveil/utils/mac.py:43 | a number below 16^w formats to exactly its w fixed-width digits |
| Numerals.FormatOfHexValue | unveil/utils/mac.py:49 | upper-case hex digits format back from their own value |
| Text.Upper | unveil/utils/mac.py:12 | same length; no lower-case letter is left, and every character that is not a lower-case letter stays as it is |
| Text.Ljust | unveil/utils/mac.py:48 | the string, padded on the right with the fill character up to the width |
| Text.Strip | unveil/commands/check.py:67 | nothing left at either end is whitespace |
| Text.StripPadded | unveil/commands/check.py:67 | whitespace around a string whose ends are not whitespace is exactly what is removed |
| Text.StripEmptyIff | unveil/utils/mac.py:21 | a string strips to empty exactly when it is all whitespace |
| Text.Split | unveil/utils/ip.py:16 | at least one field, none containing the separator |
| Text.JoinSplit | unveil/utils/ip.py:16 | joining the fields of a split restores the string |
| Text.SplitJoin | unveil/utils/ip.py:16 | splitting a join of separator-free fields gives the fields back |
| Text.ReversedInvolution | unveil/utils/ip.py:16 | reversing a list twice gives it back |

## Left out

- Real DNS resolution is not modelled. The resolver, its `timeout` and
  `lifetime` settings and the network are replaced by a given function from
  list position, query name and record type to a lookup result.
- Console output, progress bars, panels, logging and `typer.Exit` are not
  modelled; they are presentation only. The one exception is the progress
  bar, whose advances `CheckCommand.QueryProviders` counts.
- `_get_ip` (unveil/utils/ip.py:11-12) is not modelled, because it fetches the
  address over HTTP.
- The scrapers' `_fetch` bodies (HTTP, HTML parsing, a file read) are not
  modelled. Each scraper is given as its result list or as a failure.
- `_load_csv` and `_get_macs` (CSV reading, network interfaces, sockets) are
  not modelled. The registry row is a given record.
- The ISO country list comes from a third-party package, so it is a
  parameter set.
- MacUtil.FormatBlockSize: gives None for sizes of 1000 or more, because
  those branches use float division and `.2f` formatting.
- Python's `\d`, `\w`, `\b` and `str.upper()` also act on non-ASCII
  characters. The model covers ASCII only for these. `strip()` is modelled
  with Python's full whitespace set (`Text.IsSpace`).
- `int(s, 16)` also accepts non-ASCII decimal digits, such as Arabic-Indic
  digits. The model (`Numerals.ParseHexInt`) accepts ASCII hex digits only
  and returns None for them.
- `open(...).readlines()` is modelled with `\n` line ends only. Universal
  newlines and `pathlib.Path` are not modelled. A file that cannot be opened
  is a `None` content.
- `AliasGroup.get_command` and typer's command registry are not modelled.
  The registered command names are a given sequence.
- `list(set(...))` returns the elements in some order that Python does not
  specify. Deduplication picks each element nondeterministically, so the
  model promises no order.
- Nothing is concurrent in the source, so concurrency is not modelled.
- IpUtil.ReverseValidIp: requires that the address does not end in a
  newline. IpUtil.ReverseIpNewline shows why: `$` accepts an address
  followed by one newline, and that newline ends up inside the first field
  of the reversal, which the validator then rejects.
- The older `check` in unveil/unveil.py has no `iteration` counter. Its
  model (`UnveilApp.QueryProviders`) therefore keeps only `good` and `bad`.

## Where the model follows the code

- The TXT query runs inside the same `try` as the A query
  (unveil/commands/check.py:98-99). So a provider counts as `bad` only when
  both lookups answer. When the A query answers but the TXT query fails, the
  TXT failure decides how the provider counts (`Dnsbl.Lookup`).
- `_get_mac_range` tests `end_block != 'Unknown'` for its display. Formatted
  hex never equals that word (`MacUtil.FormatHexNotUnknown`), so the model
  tests whether the block size is known.
- The empty-address test in `_get_country_code` is modelled as written. It
  changes no result, because an empty address holds no code anyway
  (`MacUtil.CountryCodeNone`).
- `_classify_mac` sets `is_random` to `not is_local`: the flag is true for
  globally unique addresses. The model keeps this.

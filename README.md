# PyDevNS: the address selection, the address cache and the reply builder

PyDevNS is a small DNS server for development machines. It answers every
standard `A` query with one IPv4 address of the machine itself. This project
models the `DevNS` core of `devns/server.py`:

- `_intify`, the byte reader used on query buffers;
- `_choose_address`, which keeps candidates that look like loopback or
  private IPv4 addresses, sorts them by a text key and takes the last one;
- the text parsing of `_get_address_by_ifconfig` and the fallback of
  `_get_address_by_hostname`;
- the `address` property with its TTL (`_address_age`, the getter and the
  setter with its `or` chain and its `RuntimeError`), and `__init__`;
- `_build_response`, which walks the question's labels and copies the
  query into a reply that carries the encoded address.

The modules follow that structure:

- `Text` (text.dfy) holds the Python `str` operations the code relies on:
  `split`, `join`, `strip`, `int`, `str` and text comparison.
- `AddressSelector` (address_selector.dfy) models `_choose_address`.
- `Ifconfig` (ifconfig.dfy) models the line parsing of
  `_get_address_by_ifconfig`.
- `Wire` (wire.dfy) models `_intify`, the header, the label walk and the
  reply bytes, in the message format of section 4.1 of RFC 1035.
- `Server` (server.dfy) models the hostname source, the setter, the getter
  and `_build_response`. It does so twice:
  - as functions on values: `Resolve`, `Assign`, `Read` and `Respond`;
  - as the class `DevNS`, whose methods change its fields and are proved
    equal to those functions.
- `AddressSelectorExamples` and `ServerExamples` work inputs of
  `tests/test_server.py` through the model: every `_choose_address` case,
  the macOS `ifconfig` output, the hostname cases, the address property
  cases and the queries.

The outside world is passed in as an `Environment`:

- the `ifconfig` output, or None when running it raised;
- the outcome of the hostname lookup;
- the clock, in microseconds.

Each call reads the clock once. Exceptions are values of the `Error`
datatype:

- `IndexError` for a truncated query;
- `IfconfigFailed` when `check_output` raises;
- `HostnameUnbound` when `getfqdn` raises. The handler's log line then
  names the unbound local `hostname`.
- `NoSuitableAddress` for the `RuntimeError`;
- `Unencodable` when `int`, `chr` or the latin-1 encoding of the setter
  raises;
- `NoEncodedAddress` when `_encoded_address` was never assigned.

Python's `None` for `_address` and `config.address` is modelled as the
empty text, which is falsy in the same way.

## Model

| member | source | states |
|---|---|---|
| Wire.Intify | devns/server.py:32-35 | an int passes through unchanged; a character or byte gives its non-negative code |
| Wire.IntifyAgrees | devns/server.py:32-35 | a buffer byte reads the same whether indexing yields an int, a one-byte bytes or a one-character str |
| Wire.IntifyExamples | tests/test_server.py:12-18 | `1` gives 1, `"1"` gives 49, `b"\x01"` gives 1 |
| Wire.Opcode | devns/server.py:175 | the opcode read from the third byte is below 16 |
| Wire.OpcodeOfFlags | devns/server.py:175 | for any QR bit, 4-bit OPCODE and low bits packed into the third header byte, the shift-and-mask recovers exactly the OPCODE |
| Wire.DecodeHeader | devns/server.py:187-192 | QR, OPCODE and RCODE of a decoded header lie in their field widths |
| Wire.LabelsFrom | devns/server.py:179-184 | every label the walk collects is non-empty and shorter than 256 bytes |
| Wire.AfterStep | devns/server.py:181-184 | one loop turn moves one label from the rest of the walk to the labels already collected |
| Wire.WalkLabels | devns/server.py:179-184 | the `while lon != 0` loop returns exactly the labels `LabelsFrom` defines, or the IndexError of a length byte past the end |
| Wire.EncodeName | devns/server.py:179-184 | an encoded name ends with the zero-length root label |
| Wire.LabelsOfEncodeName | devns/server.py:179-184 | the walk reads back exactly the labels of an encoded name, whatever precedes and follows it (the inverse of `EncodeName`) |
| Wire.LabelsAgree | devns/server.py:179-184 | the walk depends only on the bytes from its start to where it stops |
| Wire.ReplyBytes | devns/server.py:187-196 | the reply is the query's id, flags 0x81 0x80, the query count twice, four zero bytes, the question, the answer prefix and the encoded address, at those offsets |
| Wire.ReplyHeader | devns/server.py:187-192 | the decoded reply header keeps the id, answers a standard query (QR 1, RD 1, RA 1, RCODE 0) and has as many answers as questions, with no authority or additional records |
| Wire.DecodeRecord | devns/server.py:194-195 | a decoded record never holds more data than its RDLENGTH announces |
| Wire.ReplyAnswer | devns/server.py:193-196 | the record after the question is an A record of class IN for the name at offset 12, TTL 60, RDLENGTH 4, whose data is the first four encoded bytes |
| Wire.ReplyRepeatsQuestionName | devns/server.py:187-194 | the answer's pointer to offset 12 leads to the same labels the query asked for |
| Text.Split | devns/server.py:54 | a split has at least one piece and no piece holds the separator |
| Text.Join | devns/server.py:66 | a join starts with its first piece and has room for a separator between each two pieces; `SplitOfJoin` and `JoinOfSplit` make it the inverse of the split |
| Text.TokenWithin | devns/server.py:96-98 | every piece after the first is shorter than the text it came from |
| Text.SplitLength | devns/server.py:96 | the first piece is no longer than the text it came from |
| Text.SplitWithoutSep | devns/server.py:96-98 | text without the separator splits into itself alone |
| Text.SplitAtSep | devns/server.py:96-98 | splitting at one separator splits each side independently |
| Text.JoinOfSplit | devns/server.py:66 | joining the pieces of a split gives the text back |
| Text.SplitOfJoin | devns/server.py:66 | splitting a join gives the pieces back when none holds the separator |
| Text.SplitHead | devns/server.py:96-97 | the first piece is the text before the first separator, and a second piece exists exactly when there is a separator |
| Text.JoinEndsWithLast | devns/server.py:98 | a join ends with its last piece, after a separator when there are several |
| Text.SplitLast | devns/server.py:98 | the last piece is the separator-free suffix after the last separator |
| Text.TrimStart | devns/server.py:96 | `lstrip` drops only leading whitespace, and the result does not start with whitespace |
| Text.TrimEnd | devns/server.py:96 | `rstrip` drops only trailing whitespace, and the result does not end with whitespace |
| Text.Strip | devns/server.py:96 | `strip` never lengthens a text, leaves no whitespace at either end, and gives the empty text exactly when the text is all whitespace; `StripOfPadded` says what it keeps |
| Text.TrimStartOfPadded | devns/server.py:96 | leading whitespace in front of a non-space is exactly what `lstrip` removes |
| Text.TrimEndOfPadded | devns/server.py:96 | trailing whitespace after a non-space is exactly what `rstrip` removes |
| Text.StripOfPadded | devns/server.py:96 | `strip` returns the core of any whitespace-padded text |
| Text.DigitChar | devns/server.py:66 | a digit value maps to the decimal character with that value |
| Text.NatToString | devns/server.py:66 | `str(n)` is non-empty decimal digits without a leading zero |
| Text.ParseOfNatToString | devns/server.py:54 | `int(str(n)) == n` |
| Text.ParseDecimal | devns/server.py:54 | `int` succeeds exactly on non-empty digit texts, and `str` of its value gives back any such text without a leading zero |
| Text.NatToStringOfDecimal | devns/server.py:54-66 | `str(int(s)) == s` for a digit text without a leading zero |
| Text.DecimalValuePositive | devns/server.py:54 | a digit text that does not start with zero has a value of at least one |
| Text.NatToStringHasNoDot | devns/server.py:66 | a decimal text holds no dot, so it survives the split at dots |
| Text.LexLe | devns/server.py:66-71 | the text comparison of the sort holds whenever the first text is a prefix of the second; `LexLeTotal`, `LexLeTransitive` and `LexLeAntisymmetric` make it a total order |
| Text.LexLeTotal | devns/server.py:66-71 | text comparison is total |
| Text.LexLeTransitive | devns/server.py:66-71 | text comparison is transitive |
| Text.LexLeAntisymmetric | devns/server.py:66-71 | text comparison is antisymmetric |
| AddressSelector.PartValues | devns/server.py:54 | the list comprehension succeeds exactly when every piece parses, and then holds each piece's value |
| AddressSelector.ParseParts | devns/server.py:54 | the parts are None exactly when some dotted piece is not a decimal; otherwise there is one part per piece, each the value of its piece |
| AddressSelector.Accept | devns/server.py:53-65 | a candidate is kept exactly when every dotted part parses and the parts pass the assertions (first part 192, 172, 127 or 10; a fourth part below 255; 192 only with 168; 172 only with 16 to 31), and it is kept as those parts |
| AddressSelector.Key | devns/server.py:68-70 | the sort key is a group digit, a dash and the last part's digits; the group digit is 0 exactly for a 127 address and 1 exactly otherwise |
| AddressSelector.Render | devns/server.py:66 | splitting the re-joined address at dots gives the `str` of each part in order; `ParseOfRender` closes the round trip |
| AddressSelector.Possible | devns/server.py:52-65 | every element of `possible` passes the assertions of the `try` block |
| AddressSelector.Insert | devns/server.py:66-71 | an insertion adds one element |
| AddressSelector.SortByKey | devns/server.py:66-71 | the sort keeps the length of its input |
| AddressSelector.Best | devns/server.py:66-77 | there is a best element exactly when `possible` is non-empty, and it is one of its elements; `BestIsLastBest` says which |
| AddressSelector.Chosen | devns/server.py:46-77 | nothing is returned exactly when no candidate is accepted; an answer is accepted as the best parts; `ChosenIsStable` and `BestIsLastBest` complete it |
| AddressSelector.AsList | devns/server.py:49-50 | a non-list argument becomes a one-element list |
| AddressSelector.ChooseAddress | devns/server.py:46-77 | the loop, the stable sort and `[-1]` return exactly `Chosen` of the candidates, with a lone candidate wrapped in a list |
| AddressSelector.AppendSorted | devns/server.py:66-71 | appending an element with the greatest key keeps the order |
| AddressSelector.InsertAdds | devns/server.py:66-71 | insertion adds the element and nothing else (multisets) |
| AddressSelector.InsertSorted | devns/server.py:66-71 | insertion into an ordered list keeps it ordered |
| AddressSelector.SortByKeySorts | devns/server.py:66-71 | the sort yields a permutation of `possible` ordered by key |
| AddressSelector.InsertLast | devns/server.py:66-73 | after an insertion the last element is the inserted one exactly when no key before it is greater |
| AddressSelector.LastBestStep | devns/server.py:66-73 | the position of the last greatest key moves to a new element exactly when its key is not smaller |
| AddressSelector.LastOfSort | devns/server.py:66-73 | the sort puts last an element whose key is greatest and strictly greater than every key after it in the input |
| AddressSelector.LastBestOfFront | devns/server.py:66-73 | dropping the final element keeps an earlier last-greatest position |
| AddressSelector.LastOfSortAt | devns/server.py:66-73 | whichever position holds the last greatest key, the sort puts its element last |
| AddressSelector.LexLeAfterCommonChar | devns/server.py:68-70 | a common first character does not change a text comparison |
| AddressSelector.LoopbackKeyLower | devns/server.py:68-70 | every 127 address has a strictly smaller key than every other accepted address |
| AddressSelector.KeyWithinGroup | devns/server.py:68-70 | within one group the keys compare as the decimal texts of the last parts |
| AddressSelector.PossibleMembers | devns/server.py:52-65 | `possible` holds the parts of every accepted candidate and of nothing else |
| AddressSelector.PossibleStep | devns/server.py:52-62 | each loop turn appends the next candidate's parts exactly when it is accepted |
| AddressSelector.BestIsLastBest | devns/server.py:66-77 | nothing is returned exactly when no candidate is accepted; otherwise the answer is the accepted candidate with the last greatest key |
| AddressSelector.BestAt | devns/server.py:66-77 | conversely, the last position of the greatest key determines the answer |
| AddressSelector.BestDominates | devns/server.py:66-77 | no accepted candidate has a greater key than the answer |
| AddressSelector.NonLoopbackWins | devns/server.py:66-77 | any accepted address outside 127 makes the answer an address outside 127 |
| AddressSelector.WinnerHasGreatestLastPartText | devns/server.py:66-77 | within the answer's group no accepted address has a last part whose decimal text is greater |
| AddressSelector.ParseOfRender | devns/server.py:54-66 | re-parsing the re-joined address gives its parts back |
| AddressSelector.PartValuesOfTexts | devns/server.py:54 | parsing pieces that each parse gives their values in order |
| AddressSelector.ChosenIsStable | devns/server.py:46-77 | the returned address is acceptable, and choosing from it alone returns it again |
| AddressSelectorExamples.ParseDotted | devns/server.py:54-66 | a dotted quad parses to its four values and re-joins to itself |
| AddressSelectorExamples.JoinFour | devns/server.py:66 | joining four texts puts dots between them |
| AddressSelectorExamples.PossibleOfTwo | devns/server.py:52-62 | two candidates contribute what each is accepted as, in order |
| AddressSelectorExamples.PossibleOfThree | devns/server.py:52-62 | three candidates contribute what each is accepted as, in order |
| AddressSelectorExamples.AcceptDotted | devns/server.py:54-62 | a dotted quad is accepted exactly when its values pass the assertions |
| AddressSelectorExamples.LastWins | devns/server.py:66-73 | the final element wins when no earlier key is greater |
| AddressSelectorExamples.Picks | devns/server.py:66-75 | the element at the last greatest key is rendered as the answer |
| AddressSelectorExamples.NoCandidates | tests/test_server.py:219 | an empty list returns nothing |
| AddressSelectorExamples.OnlyPublic | tests/test_server.py:220 | 8.8.8.8 and 8.8.4.4 are skipped and nothing is returned |
| AddressSelectorExamples.LanBeatsLoopback | tests/test_server.py:221 | 192.168.1.5 is chosen over 127.0.0.1 and 192.168.1.1 |
| AddressSelectorExamples.LoopbackWhenNothingElse | tests/test_server.py:222 | 127.0.0.1 is chosen when every other candidate is public |
| AddressSelectorExamples.LanAfterLoopbacks | tests/test_server.py:223 | 10.10.10.10 is chosen over two 127 addresses |
| AddressSelectorExamples.GreaterLastPart | tests/test_server.py:224 | 10.10.5.2 is chosen over 10.10.5.1 |
| AddressSelectorExamples.MixedRanges | tests/test_server.py:225 | 172.16.1.5 is chosen; 192.169.5.5 is skipped |
| AddressSelectorExamples.BroadcastAndOutOfRangeSkipped | tests/test_server.py:226 | 10.10.3.255 and 172.1.1.8 are skipped and 192.168.1.1 is chosen |
| AddressSelectorExamples.LastPartComparedAsText | devns/server.py:68-70 | the key is text, so 10.0.0.2 is chosen over 10.0.0.10 |
| AddressSelectorExamples.EqualKeysLaterWins | devns/server.py:66-73 | equal keys keep input order, so the later of 10.0.0.1 and 192.168.0.1 is chosen |
| Ifconfig.FirstIndex | devns/server.py:96-97 | the index is that of the first occurrence, or the length when there is none |
| Ifconfig.InetAddress | devns/server.py:95-99 | a named address holds no colon and no space and is shorter than its line; `InetAddressWhen` and `InetAddressValue` say when and what |
| Ifconfig.InetAddresses | devns/server.py:94-101 | the loop collects at most one address per line, none holding a colon or a space; `CollectAddresses` is proved to compute it |
| Ifconfig.ByIfconfig | devns/server.py:88-102 | the source fails exactly when `check_output` raises, and any address it gives is one the selector accepts |
| Ifconfig.CollectAddresses | devns/server.py:90-101 | the loop over the lines collects exactly `InetAddresses` of the split output |
| Ifconfig.GetAddressByIfconfig | devns/server.py:88-102 | the result is the selector's choice among the collected addresses, or the failure of `check_output` |
| Ifconfig.InetPrefix | devns/server.py:96-97 | the first token is `inet` with a second token after it exactly when the text starts with `inet` and a space |
| Ifconfig.InetAddressWhen | devns/server.py:95-101 | a line names an address exactly when its stripped text starts with `inet` and a space; `inet6` lines and a lone `inet` are skipped |
| Ifconfig.InetAddressValue | devns/server.py:98 | the named address is the colon-free and space-free suffix of the second token after its last colon |
| Ifconfig.InetAddressesAppend | devns/server.py:94-101 | addresses of consecutive blocks of output come in block order |
| Ifconfig.FirstTwoTokens | devns/server.py:96 | a first token, a space, a token and a trailer split into those two tokens first |
| Ifconfig.InetOfStripped | devns/server.py:96-99 | a stripped `inet` line names the text after its token's last colon |
| Ifconfig.StripInetLine | devns/server.py:96 | stripping an indented, padded `inet` line gives its core |
| Ifconfig.InetLine | devns/server.py:94-99 | any indented, padded `inet` line names the text after its token's last colon |
| Ifconfig.InetAddressesSingle | devns/server.py:94-101 | a single line contributes what it names |
| Ifconfig.InetAddressesNone | devns/server.py:94-101 | lines that name nothing contribute nothing |
| Ifconfig.InetAddressesOfTwo | devns/server.py:94-101 | two naming lines among lines that name nothing contribute their two addresses in order |
| Ifconfig.AddressesOfLineAppended | devns/server.py:94-101 | one more line at the end of the output adds what that line names |
| ServerExamples.NoColon | devns/server.py:98 | a token without a colon is its own address |
| ServerExamples.MacInetLine | tests/test_server.py:323 | the macOS line `inet 127.0.0.1 netmask …` names 127.0.0.1 |
| ServerExamples.AddressLine | devns/server.py:95-99 | an indented `inet` line with a colon-free token names that token and holds no newline |
| ServerExamples.NewlineFreeLine | devns/server.py:94 | an `inet` line built from newline-free pieces holds no newline |
| ServerExamples.EthernetInetLine | tests/test_server.py:330 | the line `inet 10.10.10.10 netmask … broadcast …` names 10.10.10.10 |
| ServerExamples.OtherLine | devns/server.py:95-101 | an indented text that does not start with `inet` and a space names nothing and holds no newline |
| ServerExamples.PlainLineSkipped | devns/server.py:95-101 | an indented plain text names nothing |
| ServerExamples.NoNewlineAfterPad | devns/server.py:94 | blanks in front of a text add no newline |
| ServerExamples.PlainPieces | devns/server.py:95-96 | a text of two newline-free pieces with non-blank ends, not starting with `inet` and a space, is plain |
| ServerExamples.LoopbackFlags | tests/test_server.py:321 | the `lo0: flags=…` line names nothing |
| ServerExamples.LoopbackOptions | tests/test_server.py:322 | the loopback `options=…` line names nothing |
| ServerExamples.LoopbackInet6 | tests/test_server.py:324 | the `inet6 ::1` line names nothing |
| ServerExamples.LoopbackLinkLocal | tests/test_server.py:325 | the `inet6 fe80::1%lo0` line names nothing |
| ServerExamples.NeighbourOptions | tests/test_server.py:326 | the `nd6 options=…` line names nothing |
| ServerExamples.TunnelFlags | tests/test_server.py:327 | the `gif0: flags=…` line names nothing |
| ServerExamples.SixToFourFlags | tests/test_server.py:328 | the `stf0: flags=…` line names nothing |
| ServerExamples.EthernetFlags | tests/test_server.py:329 | the `en0: flags=…` line names nothing |
| ServerExamples.EthernetHardware | tests/test_server.py:330 | the `ether …` line names nothing |
| ServerExamples.EthernetMedia | tests/test_server.py:333 | the `media: autoselect` line names nothing |
| ServerExamples.EthernetStatus | tests/test_server.py:334 | the `status: active` line names nothing |
| ServerExamples.MacChoice | tests/test_server.py:320-335 | of 127.0.0.1 and 10.10.10.10, 10.10.10.10 is chosen |
| ServerExamples.MacOutput | devns/server.py:88-102 | fourteen newline-free lines of which the third and the eleventh name an address give the choice between those two |
| ServerExamples.SilentLine | devns/server.py:94-101 | a line that names nothing leaves the collected addresses as they were |
| ServerExamples.NamingLine | devns/server.py:94-101 | a line that names an address appends it to the collected addresses |
| ServerExamples.MacIfconfig | tests/test_server.py:320-335 | the whole macOS output of the first ifconfig test gives 10.10.10.10 |
| ServerExamples.AfterOneColon | devns/server.py:98 | the text after the one colon of `addr:<address>` is the address |
| ServerExamples.LinuxInetLine | tests/test_server.py:354 | the Linux line `inet addr:172.19.0.1  Bcast:…` names 172.19.0.1 |
| ServerExamples.SkippedLine | devns/server.py:95-101 | a line whose stripped text does not start with `inet` and a space names nothing |
| ServerExamples.Inet6Line | tests/test_server.py:324 | the line `inet6 ::1 prefixlen 128` names nothing |
| ServerExamples.EmptyIfconfig | tests/test_server.py:208 | empty ifconfig output yields no address |
| ServerExamples.SingleCandidateChosen | devns/server.py:84 | a lone private address is chosen as it is |
| ServerExamples.HostnameResults | tests/test_server.py:182-200 | a hostname resolving to 10.10.10.10 gives that address; a lookup that raises gives None |
| ServerExamples.EncodeDotted | devns/server.py:135-137 | a dotted quad of byte values encodes to those four bytes |
| ServerExamples.SetThenGet | tests/test_server.py:140-148 | after the setter stores an address, the getter returns it from the cache without consulting anything, with one byte per part |
| ServerExamples.TestAddresses | tests/test_server.py:140-144 | 0.0.0.0, 127.0.0.1 and 1.2.3.4 encode to the expected bytes |
| ServerExamples.StaleAddressRefreshed | tests/test_server.py:151-165 | five seconds past the TTL, the getter consults ifconfig once, takes its address and encoding, and moves the timestamp to now; it covers the 127.0.0.1 row only (see "## Left out") |
| ServerExamples.OverrideRead | tests/test_server.py:168-179 | under a configured address, the getter returns it and its encoding, the age is 0, and ifconfig is not consulted |
| ServerExamples.NothingSuitable | tests/test_server.py:203-215 | setting None with empty ifconfig output and an unresolvable hostname raises the RuntimeError after consulting both sources, leaving the cache unchanged |
| ServerExamples.NoSourceAnswers | devns/server.py:123-133 | with neither source answering, setting None raises the RuntimeError and changes nothing |
| ServerExamples.QuestionLabels | devns/server.py:179-184 | a query whose question is an encoded name walks to that name's labels |
| ServerExamples.NameOfLocalDev | tests/test_server.py:233-234 | `local.dev` encodes to `\x05local\x03dev\x00` |
| ServerExamples.NameOfTestLocalDev | tests/test_server.py:237-238 | `test.local.dev` encodes to `\x04test\x05local\x03dev\x00` |
| ServerExamples.ReplyOfQuery | devns/server.py:187-196 | the reply to a query without answers is laid out byte by byte |
| ServerExamples.FreshQueryReply | devns/server.py:173-196 | an A query answered from a fresh cache holding 1.2.3.4 gives the reply with that address and consults nothing |
| ServerExamples.FreshQuestionAnswered | devns/server.py:173-196 | the same reply, with the question taken as one piece |
| ServerExamples.LocalDevReply | tests/test_server.py:233-236 | the query for local.dev gets exactly the expected reply bytes |
| ServerExamples.TestLocalDevReply | tests/test_server.py:237-240 | the query for test.local.dev gets exactly the expected reply bytes |
| ServerExamples.OtherOpcodeIgnored | tests/test_server.py:241-244 | a query with opcode 10 gets no reply |
| Server.GetAddressByHostname | devns/server.py:79-86 | the method returns what `ByHostname` defines: the selector's choice for the resolved address, None when resolution raises, the unbound-name error when `getfqdn` raises |
| Server.ByHostname | devns/server.py:79-86 | the source fails exactly when `getfqdn` raises, and any address it gives comes from a resolution and is one the selector accepts |
| Server.ResolveAddress | devns/server.py:122-133 | the `or` chain returns the outcome and the consulted sources that `Resolve` defines |
| Server.Resolve | devns/server.py:122-133 | a successful chain never yields the empty text, and nothing is consulted exactly when an address is given; `ResolveChain` says which value is chosen and which error is propagated |
| Server.ResolveChain | devns/server.py:122-133 | a given address is used as it is; otherwise ifconfig is consulted first and once, and its address is the result when it gives one; the hostname is consulted exactly when ifconfig gave nothing, and its address is then the result when it gives one; an ifconfig failure and a hostname failure are raised as they are; the RuntimeError is raised exactly when every source gave nothing; the result is never empty |
| Server.EncodePartsMeaning | devns/server.py:135-137 | the encoding succeeds exactly when every dotted part parses and is at most 255, and then it is those values, one byte each |
| Server.EncodeParts | devns/server.py:135-137 | a successful encoding has one byte per part; `EncodePartsMeaning` says which bytes |
| Server.EncodeAddress | devns/server.py:135-137 | a successful encoding has one byte per dotted part; `EncodeOfRender` says when it succeeds |
| Server.EncodeOfRender | devns/server.py:66-137 | an address the selector returns encodes to its own parts when they all fit a byte, and fails otherwise |
| Server.AddressAge | devns/server.py:104-109 | the age is 0 under an override, otherwise the whole seconds elapsed, rounded down |
| Server.AssignOutcomes | devns/server.py:121-138 | the setter either succeeds and sets all three fields to the chain's address, its encoding and now; or fails before assigning, raises the chain's own error and changes nothing; or fails to encode the chain's address and changes only `_address`, to that address |
| Server.Assign | devns/server.py:121-138 | the setter consults what the `or` chain consults; on success it stores the address, its encoding and now; on failure it keeps the old encoding and timestamp; `AssignOutcomes` ties its address and errors to the chain's |
| Server.ReadKeepsConsistent | devns/server.py:111-138 | every read that does not fail to encode leaves the encoded bytes belonging to the cached address |
| Server.FreshReadHits | devns/server.py:111-119 | a read of a set address no older than the TTL returns it, consults nothing and changes nothing |
| Server.Read | devns/server.py:111-119 | a successful read returns the cached address, which is never empty, and a read consults a source only without an override; `FreshReadHits` and `ReadRefreshes` say which branch is taken |
| Server.ReadRefreshes | devns/server.py:114-118 | a read of an unset address, or of one older than the TTL, is a setter call with the configured address: it returns, stores and consults exactly what the setter does |
| Server.OverrideNeverConsults | devns/server.py:104-119 | under an override a read never consults ifconfig or the hostname and does not depend on them |
| Server.StaleReadRefreshes | devns/server.py:111-119 | without an override a stale read consults ifconfig first and once, and a success moves the timestamp to now; when ifconfig gives an encodable address the read returns it and caches it with its encoding and now |
| Server.ReadTwiceHits | devns/server.py:111-138 | with a TTL of at least zero, a second read at the same moment after a successful one is served from the cache |
| Server.NonQueryIgnored | devns/server.py:175-178 | a query with any other opcode is dropped without touching the cache or consulting anything |
| Server.TruncatedQueryRaises | devns/server.py:175-184 | a query too short for its opcode byte, or whose labels run past its end, raises IndexError before the cache is read |
| Server.ReplyWhen | devns/server.py:173-196 | a reply is produced exactly for a standard query whose labels end inside it and whose address read succeeds; it then carries the encoded address of the cache as the read left it and repeats the question's labels; for such a query a failed read raises that same error, and a successful read without encoded bytes raises the AttributeError, each with the cache and sources the read left |
| Server.Respond | devns/server.py:173-196 | a reply is twelve bytes longer than the query plus the encoded address and starts with the query's id; without a reply the encoding and timestamp are unchanged unless the setter failed to encode; `ReplyWhen` says which outcome each query gets |
| Server.ReplyCarriesAddress | devns/server.py:186-196 | from a consistent cache, the reply's address bytes are the encoding of the address the getter returned |
| Server.DevNS.constructor | devns/server.py:39-44 | a new server holds no address and no encoding, with the timestamp set to now |
| Server.DevNS.SetAddress | devns/server.py:121-138 | the setter's new fields and outcome are those `Assign` defines |
| Server.DevNS.GetAddress | devns/server.py:111-119 | the getter's new fields and outcome are those `Read` defines |
| Server.DevNS.BuildResponse | devns/server.py:173-196 | `_build_response`'s outcome and new fields are those `Respond` defines |

## Left out

- Sockets, `bind`, `_listen`, `_run`, `run` and the `interruptable` decorator are left out. They are I/O, and they are not part of the reply logic.
- Logging is left out. This includes the query log line's `".".join(labels)` and the latin-1 decoding of each label. The model keeps only what that line does to state: it reads the `address` property.
- The resolver files, `devns/dns.py`, `devns/config.py` and the command line are not part of this model. The configuration is reduced to the two values the cache reads, `address` and `ttl`. The `config.update(kwargs)` of `__init__` is not modelled.
- `subprocess.check_output` and the latin-1 decoding of its output are not modelled. The ifconfig output is a parameter, and None stands for the call raising.
- `socket.getfqdn` and `socket.gethostbyname` are not modelled. Their outcome is a parameter (`HostnameLookup`).
- Time is a parameter in microseconds. The getter reads the clock twice (in `_address_age` and in the setter); the model reads one `now` per call.
- Text.ParseDecimal: models `int()` only on plain ASCII decimal digits. Python also accepts a sign, surrounding whitespace, underscores between digits and the decimal digits of other Unicode scripts; the model rejects those texts.
- Server.EncodeParts: a part that does not parse and a part above 255 are one error, `Unencodable`. Python raises ValueError, or UnicodeEncodeError once `chr` exceeds 255.
- Wire.Intify: a one-character str and a byte are the only non-int inputs. Calling `ord` on anything else raises TypeError, which the model does not represent.
- The reply's ANCOUNT copies QDCOUNT, because the code writes `data[4:6]` twice. This is modelled as written.
- A slice that runs past the end is cut short as in Python. A length byte read past the end raises IndexError.
- The Linux `ifconfig` outputs of tests/test_server.py:352-491 are not worked through as whole outputs. Of their seventy lines the model works through one address line, `ServerExamples.LinuxInetLine`; the choice among their seven addresses is not worked through.
- The bytes form of the macOS output (tests/test_server.py:336-351) is the same text once decoded as latin-1; the decoding is not modelled, so `ServerExamples.MacIfconfig` covers both.
- ServerExamples.StaleAddressRefreshed: covers only an address the selector accepts, i.e. the 127.0.0.1 row of tests/test_server.py:151-155. The 0.0.0.0 and 1.2.3.4 rows replace `_get_address_by_ifconfig` itself with a mock, so their address never passes `_choose_address`; an ifconfig output cannot produce them, and the model does not replace methods.
- Python's `assert` statements are taken to run. The filters of `_choose_address` (devns/server.py:55-62) and the `inet` check of `_get_address_by_ifconfig` (devns/server.py:97) are assertions; under `python -O` they are skipped, so every line with a second word would give a candidate and every candidate whose parts parse would be kept. The model does not cover that mode.

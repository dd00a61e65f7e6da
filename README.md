# lwmon tools, modelled in Dafny

lwmon is a set of small command-line and Qt tools for LiveWire audio-over-IP
networks. This project models the logic at their core and proves what that
logic promises:

- **The LiveWire address codec** (`lwaddr`, in `address_codec.dfy`). It takes one argument
  and tries four readings in turn: an 8-hex-digit stream ID, a multicast MAC address, a
  decimal source number, a dotted-quad multicast IPv4 address. It then lists the source's
  stereo, surround and backfeed addresses, or names one of the four reserved special
  channels. Every `exit()` becomes a typed result. The MAC prefixes are the code's own
  constants (`01:00:5e:00/01/04`), which differ from the mapping in section 6.4 of RFC 1112.
- **Master-clock discovery** (`lwmaster`, in `master_discovery.dfy`). It joins the clock group on every
  interface and waits up to 100 ms for a 78-byte frame addressed to 239.192.255.2. The
  frame's IPv4 source (bytes 26 to 29 of the Ethernet frame; see section 3.1 of RFC 791)
  is the master.
- **The monitors and writers.** These are the older interactive monitor (`lwmon_legacy.dfy`),
  lwmon's command-file writer (`lwmon_object.dfy`), the batch writer with its login
  exchange (`writefromfile.dfy`) and the LWRP dump (`lwrpdump.dfy`). They share the CR/LF
  line framing in `framing.dfy`.
- **The capture tools.** `lwcap` (`lwcap.dfy`) strips the RTP header and repacks 24-bit
  samples into 32-bit words. `lwmultcap` (`lwmultcap.dfy`) prints a hex dump of each datagram.
- **The subscription tool** (`lwcast`). `subscription_model.dfy` models its table of
  subscriptions and `add_address_dialog.dfy` its add-address dialog.
- **Shared pieces.**
  - the quote-aware splitter `AString::split` (`astring.dfy`);
  - both copies of the `CmdSwitch` tokenizer (`cmd_switch.dfy`);
  - the command-history line editor (`line_edit.dfy`);
  - the LWRP/LWCP colorizer (`colors.dfy`);
  - the parts of Qt's string, number and IPv4-address handling the tools rely on
    (`qt_text.dfy`, `host_address.dfy`).

Code that works by changing state is modelled imperatively. Stateful objects (the
monitors, the line editor, the tokenizer, the subscription table) are classes. Loops
are methods proved against specification functions, and the repacking loop fills an
array. Pure decisions are functions with lemmas.

Several routines contain a slip. `variant.dfy` gives these a `Build` parameter:
`AsWritten` follows the code as it stands and `Corrected` follows the evident intent.
Lemmas state both sides; see "## Findings".

Sockets, `setsockopt`, `ioctl`, `poll`, `recv`, file opens and reads, and clock
readings are the environment. Their answers are parameters: success flags, sequences
of datagrams or bytes, and integer clock readings. What a tool writes to a device or
prints is returned as a value.

## Model

| member | source | states |
|---|---|---|
| AddAddress.ErrorText | src/lwcast/addaddressdialog.cpp:101-111 | a message box is raised exactly for the two refusals: an address that does not parse and one outside the multicast range |
| AddAddress.OkData | src/lwcast/addaddressdialog.cpp:97-116 | an accepted outcome carries the parsed address, whose first octet lies in 224..239 |
| AddAddress.MulticastRange | src/lwcast/addaddressdialog.cpp:99-111 | a dotted quad is never refused as invalid, and is refused as not multicast exactly when its first octet is below 224 or above 239 |
| AddAddress.LabelReadsBack | src/lwcast/addaddressdialog.cpp:113-115 | the interface name and address read back from the chosen "name - address" label are the ones the label was built from |
| AddAddress.EmptyBoxUndefined | src/lwcast/addaddressdialog.cpp:113-115 | as written, OK with a multicast address and an empty interface box reads the second part of a one-part list, which is undefined |
| AddAddress.EmptyBoxRefused | src/lwcast/addaddressdialog.cpp:113-115 | corrected, that press keeps the dialog open without accepting |
| AddAddress.CorrectedNeverUndefined | src/lwcast/addaddressdialog.cpp:97-116 | corrected, no address text and no interface label make OK undefined |
| AddAddress.PackedIsMacValue | src/lwcast/addaddressdialog.cpp:181-184 | OR-ing each hardware byte in at shift 40-8i gives the 48-bit big-endian number of the six bytes |
| AddAddress.PackMac | src/lwcast/addaddressdialog.cpp:180-184 | the packing loop returns the big-endian value of the hardware address |
| AddAddress.MacRoundTrip | src/lwcast/addaddressdialog.cpp:180-184 | the packed value is below 2^48 and the six bytes come back out of it unchanged |
| AddAddress.MacZero | src/lwcast/addaddressdialog.cpp:185-191 | a hardware address packs to zero exactly when all six bytes are zero |
| AddAddress.Walked | src/lwcast/addaddressdialog.cpp:176-178 | the walk covers the leading run of existing interface indices and stops at the first missing one |
| AddAddress.GetInterfaceInfo | src/lwcast/addaddressdialog.cpp:159-208 | the index walk returns the lists and count of the interfaces found, nothing when the socket fails |
| AddAddress.Labels | src/lwcast/addaddressdialog.cpp:153-155 | one "name - address" label per interface, in the order GetInterfaceInfo lists them |
| AddAddress.Box | src/lwcast/addaddressdialog.cpp:153-155 | insertItem(-1, …) puts each label at the front, so item j of the box is the j-th label counted from the last one inserted |
| AddAddress.BoxBackwards | src/lwcast/addaddressdialog.cpp:153-155 | reading the box from the bottom up gives the labels back in the order they were inserted |
| AddAddress.BoxSnoc | src/lwcast/addaddressdialog.cpp:154 | a label inserted at the front is the last one read from the bottom up |
| AddAddress.PopulateInterfaces | src/lwcast/addaddressdialog.cpp:145-156 | the box holds one label per interface reported by GetInterfaceInfo, in reverse order: the loop prepends each label |
| AddAddress.FirstFoundAtBottom | src/lwcast/addaddressdialog.cpp:151-155 | the first interface found is shown at the bottom of the box and the last one at the top |
| AddAddress.CollectShape | src/lwcast/addaddressdialog.cpp:179-201 | the MAC, address and name lists run in parallel with one entry per interface whose hardware address was read; the count is the number of non-zero MACs; every MAC is below 2^48 |
| AddAddress.CollectEntries | src/lwcast/addaddressdialog.cpp:186-200 | each list entry is the interface it came from: its name, its IPv4 address and its packed MAC |
| AddAddress.StopsAtGap | src/lwcast/addaddressdialog.cpp:178-203 | whatever the kernel would answer past the first missing index is never consulted |
| AddressCodec.ChannelOf | src/lwmon/lwmon.cpp:547-566 | codes 1 to 4, and only those, name a special channel, and the channel's address ends in that code |
| AddressCodec.StreamIdReport | src/lwmon/lwmon.cpp:436-449 | a 32-bit value is reported only under the prefixes 0xefc0, 0xefc1 and 0xefc4; a source found there has a real signal type and a 16-bit number (15 bits for surround), and a special channel only comes from 0xefc0 with its code in the low byte (the round trips are StreamIdPath and StreamIdRoundTripCorrected, the swapped families StreamIdFamiliesSwapped) |
| AddressCodec.ParseStreamId | src/lwmon/lwmon.cpp:433-451 | the stream-ID path reports only for an eight-character argument that parses as a hex number, and any source it reports has a real signal type and a 16-bit number (no decimal number takes it: DecimalStreamIdRejected) |
| AddressCodec.MacReport | src/lwmon/lwmon.cpp:394-416 | a 48-bit value is reported only under 01:00:5e:00, :01 and :04; a source has a real signal type and a 16-bit number (15 bits for surround), and a special channel only comes from 01:00:5e:00 with its code in the low byte (round trip: MacRoundTrip) |
| AddressCodec.ParseMac | src/lwmon/lwmon.cpp:453-466 | the MAC path reports only for twelve characters or six ':'- or '-'-separated groups, and any source it reports has a real signal type and a 16-bit number (NotHexNoMac and DecimalMacRejected say what it refuses) |
| AddressCodec.ParseSourceNumber | src/lwmon/lwmon.cpp:468-474 | a decimal number is reported as itself, with no signal type, and only from 1 to 32767 (SourceNumberPath: for every number) |
| AddressCodec.IpReport | src/lwmon/lwmon.cpp:488-500 | only 239.x.y.z is reported; a source found from octets has a real signal type, a 15-bit number, and that source's address in that family is the octets given; a special channel needs 239.192 with a third octet from 128 and the channel's code last |
| AddressCodec.ParseIp | src/lwmon/lwmon.cpp:476-505 | anything but four dotted decimal octets is refused, and a source the IP path reports has as its address in its family exactly the octets typed |
| AddressCodec.Decode | src/lwmon/lwmon.cpp:419-506 | whatever path reports a source, its number is below 65536, and a bare source number lies from 1 to 32767 (the order of the paths: DecodeFirstPath, DottedTokenTakesIpPath, SourceNumberPath) |
| AddressCodec.LineText | src/lwmon/lwmon.cpp:519-541 | the star sits in column 1 for surround and backfeed and column 3 for stereo, and for an address of at most 15 characters the address starts at column 20 and the MAC address fills the line from column 37 |
| AddressCodec.Listing | src/lwmon/lwmon.cpp:507-543 | the listing has a header and three address lines, and the star marks exactly the looked-up family's line, none for a bare source number |
| AddressCodec.Run | src/lwmon/lwmon.cpp:504-505 | a run writes to standard error exactly when the argument is refused; a reported argument prints a listing and exits with 0; corrected, the exit code is 0 exactly when the argument is reported (as written: RejectionLooksLikeSuccess) |
| AddressCodec.ReadOctets | src/lwmon/lwmon.cpp:479-487 | the octet loop gives up on the first field that is not a decimal number up to 255; otherwise it returns the four octets, each at most 255 |
| AddressCodec.Truncated | src/lwmon/lwmon.cpp:516-517 | snprintf keeps a prefix of the text no longer than the buffer allows, and the whole text when it fits |
| AddressCodec.PadRight | src/lwmon/lwmon.cpp:525-542 | "%-7s" keeps the text and pads it with spaces on the right up to the width |
| AddressCodec.AddressLines | src/lwmon/lwmon.cpp:519-542 | the listing has three address lines, stereo, surround and backfeed in that order, each the line of its family |
| AddressCodec.FamilyLine | src/lwmon/lwmon.cpp:519-542 | a line is starred exactly when its family is the one looked up, and shows that family's MAC and IPv4 address |
| AddressCodec.HexGroupsValue | src/lwmon/lwmon.cpp:459-461 | gluing two-digit hex groups gives twice as many digits, read back as the big-endian value of the bytes |
| AddressCodec.NotHex | src/lwmon/lwmon.cpp:433-474 | a character that is not a hex digit makes the stream-ID, the twelve-digit MAC and the source-number paths find nothing |
| AddressCodec.NotHexNoMac | src/lwmon/lwmon.cpp:455-466 | a token holding a character that is neither a hex digit nor ':' or '-' is no MAC address in any of the three forms, because that character survives the gluing of the groups |
| AddressCodec.DottedTokenTakesIpPath | src/lwmon/lwmon.cpp:433-502 | a token with a '.' is decided by the IP path alone |
| AddressCodec.BadOctetRejected | src/lwmon/lwmon.cpp:479-487 | any token with four dotted fields one of which is not a decimal octet is refused |
| AddressCodec.MacRoundTrip | src/lwmon/lwmon.cpp:394-466 | the colon form of every source's MAC address, in every family, decodes back to that source and family |
| AddressCodec.MacTextShape | src/lwmon/lwmon.cpp:459-461 | the colon form is 17 characters and splits at ':' into its six hex groups |
| AddressCodec.MacGlued | src/lwmon/lwmon.cpp:399-414 | the six groups glued together read back, as a hex number, to the source and family |
| AddressCodec.MacValue | src/lwmon/lwmon.cpp:401-414 | the 48-bit MAC value of a source is below 2^48 and its masks name that source and family |
| AddressCodec.StreamIdDigits | src/lwmon/lwmon.cpp:433-434 | a stream ID is eight hex digits that parse back to its 32-bit value |
| AddressCodec.StreamIdValue | src/lwmon/lwmon.cpp:436-449 | the masked fields of a stream ID are the octets of the source's IPv4 address |
| AddressCodec.StreamIdFields | src/lwmon/lwmon.cpp:433-449 | for a real family, the stream ID is eight hex digits with that value, and its masked fields are the address octets |
| AddressCodec.OctetBounds | src/lwmon/lwmon.cpp:509-512 | a source's address starts with 239 and every octet is below 256 |
| AddressCodec.StereoStreamIdRoundTrip | src/lwmon/lwmon.cpp:433-443 | a stereo stream ID decodes back to its source, as written and corrected |
| AddressCodec.StreamIdPath | src/lwmon/lwmon.cpp:433-451 | the stream-ID path reads the value of a source's stream ID back |
| AddressCodec.DecodeFirstPath | src/lwmon/lwmon.cpp:433-451 | an argument the stream-ID path accepts is decided there, before the other paths |
| AddressCodec.StreamIdFamiliesSwapped | src/lwmon/lwmon.cpp:444-449 | as written, a backfeed stream ID decodes as a surround source and a surround stream ID as a backfeed source 32768 higher |
| AddressCodec.StreamIdRoundTripCorrected | src/lwmon/lwmon.cpp:444-449 | with the family prefixes matched to the addresses, every family's stream ID decodes back to its source |
| AddressCodec.DottedQuadDecodes | src/lwmon/lwmon.cpp:479-505 | a dotted quad of octets is decided by the multicast ranges alone: reported when one matches, refused otherwise |
| AddressCodec.IpRoundTrip | src/lwmon/lwmon.cpp:479-502 | every source's IPv4 address, in every family, decodes back to that source and family |
| AddressCodec.IpOctetsReport | src/lwmon/lwmon.cpp:488-497 | a source's octets lie in its family's range and that range names the source again |
| AddressCodec.SpecialChannelRoundTrip | src/lwmon/lwmon.cpp:498-500 | the four special channel addresses 239.192.255.1 to .4 decode to their channels |
| AddressCodec.SpecialChannelsAsWritten | src/lwmon/lwmon.cpp:498 | as written, every 239.192.x.y with x from 128 to 255 is taken for special channel y, and refused when y is not 1 to 4 |
| AddressCodec.SpecialChannelsCorrected | src/lwmon/lwmon.cpp:498 | with a comparison in place of the assignment, 239.192.x.y names a special channel exactly when x is 255 and y is 1 to 4 |
| AddressCodec.SourceNumberPath | src/lwmon/lwmon.cpp:471-474 | every decimal number is reported as a source exactly when it lies from 1 to 32767, and refused otherwise (0, and every larger number, however many digits) |
| AddressCodec.DecimalDigitsAsHex | src/lwmon/lwmon.cpp:433-434 | read in base 16, decimal digits give a value whose leading and last hex digits are at most 9 |
| AddressCodec.DecimalStreamIdRejected | src/lwmon/lwmon.cpp:433-450 | no eight-digit decimal number takes the stream-ID path |
| AddressCodec.DecimalMacRejected | src/lwmon/lwmon.cpp:456-458 | no twelve-digit decimal number takes the MAC path |
| AddressCodec.NoMacPrefix | src/lwmon/lwmon.cpp:399-415 | a value whose sixth hex digit from the top is at most 9 carries none of the 01:00:5e prefixes |
| AddressCodec.PrefixLiterals | src/lwmon/lwmon.cpp:525-542 | the printed "239.192.", "239.196." and "239.193." prefixes are the first two octets of each family's address |
| AddressCodec.PairFits | src/lwmon/lwmon.cpp:516-517 | the "%d.%d" pair survives the seven-byte buffer when one of its numbers has at most two digits |
| AddressCodec.CutPair | src/lwmon/lwmon.cpp:516-517 | a pair of two three-digit numbers loses its last digit to the seven-byte buffer |
| AddressCodec.ListedIp | src/lwmon/lwmon.cpp:516-542 | when the pair fits, the address on a family's line is that family's IPv4 address |
| AddressCodec.ListedAddressesDecode | src/lwmon/lwmon.cpp:509-542 | every MAC address a listing shows decodes back to the listed source and family, and so does every IPv4 address whose pair fits (all of them when corrected) |
| AddressCodec.AddressCutShort | src/lwmon/lwmon.cpp:516-517 | as written, when the low byte of a source number and the third octet of a family's address both have three digits (surround: any low byte of 100 or more; stereo and backfeed: a high byte of 100 or more too), that family's line shows the address of a different source, which decodes to that other source |
| AddressCodec.LineCut | src/lwmon/lwmon.cpp:516-517 | that line shows the same family's address of source hi * 256 + lo / 10 |
| AddressCodec.RejectionLooksLikeSuccess | src/lwmon/lwmon.cpp:504-505 | as written, a refused argument prints the error but exits with 256, which a parent process sees as status 0 |
| AddressCodec.RejectionStatusCorrected | src/lwmon/lwmon.cpp:504-505 | corrected, the parent sees a failure status exactly when the argument is refused |
| AString.SplitQuoted | src/astring.cpp:43-67 | the result is never empty; an empty line gives one empty element; with an empty quote string the plain QString split is used |
| AString.SplitLoop | src/astring.cpp:43-67 | the character loop builds exactly the quote-aware split of the line |
| AString.Expand | src/astring.cpp:53-56 | with a one-character quote string the text is unchanged; otherwise each quote character stands for the whole quote string |
| AString.QuotedIsParity | src/astring.cpp:53-54 | after a scan, the text is inside quotes exactly when it holds an odd number of quote characters |
| AString.ScanQuotedStep | src/astring.cpp:53-54 | one more character toggles the quoted state exactly when it is the quote character |
| AString.ElementCount | src/astring.cpp:52-64 | with a one-character separator there is one element more than there are separators outside quotes |
| AString.JoinRestores | src/astring.cpp:52-64 | with one-character separator and quote, joining the elements with the separator gives back the line |
| AString.LongSeparatorNeverMatches | src/astring.cpp:58 | a separator of any length other than one never splits: the result is the one expanded line |
| AString.QuotedSeparatorKept | src/astring.cpp:53-63 | a line that opens a quote and never closes it is one element, separators included, and ends inside quotes |
| AString.QuoteFreePartsHaveNoSeparator | src/astring.cpp:52-64 | without quote characters the scan ends outside quotes and no element holds the separator |
| AString.QuoteFreeSplitIsPlain | src/astring.cpp:43-67 | without quote characters the quote-aware split is the plain QString split |
| AString.PlainScan | src/astring.cpp:61-63 | a word free of the quote and the separator scans as one element, outside quotes |
| AString.FirstPartKept | src/astring.cpp:58-60 | a word free of quote and separator, then a separator, is the first element, and the rest splits on its own |
| AString.LeadingToken | src/lwrpdump/lwrpdump.cpp:174 | the first blank-separated token of a line that starts with a plain word and a blank is that word |
| Framing.Without | src/lwrpdump/lwrpdump.cpp:161-162 | the dropped character no longer occurs and nothing is added |
| Framing.Frame | src/lwrpdump/lwrpdump.cpp:154-168 | a reader whose accumulator holds no end-of-line character never keeps one |
| Framing.FrameIsSplit | src/lwrpdump/lwrpdump.cpp:154-168 | the lines handed on are the finished parts of the kept bytes split at the end-of-line character, all but the last, and the last stays in the accumulator |
| Framing.FrameAppend | src/lwmon.cpp:171-187 | reading a + b hands on the lines of a and then the lines of b read from the accumulator a left, so reads may be cut anywhere |
| Framing.TerminatedLineReadsBack | src/lwrpdump/lwrpdump.cpp:123-127 | a line sent with CR LF comes out of either reader as that one finished line, with an empty accumulator |
| Framing.SentLinesReadBack | src/lwrpdump/lwrpdump.cpp:123-127 | lines sent one after another come out of either reader as those lines, finished, in order |
| Framing.Finished | src/lwrpdump/lwrpdump.cpp:157 | each line finished as the reader finishes it, one for one |
| Framing.FramePrefix | src/lwrpdump/lwrpdump.cpp:154-168 | a read of a prefix of the data hands on a prefix of the lines |
| Framing.FrameStep | src/lwmon.cpp:172-185 | one more byte closes the line on the end-of-line character, is dropped when ignored and is accumulated otherwise |
| Framing.FirstWhere | src/lwrpdump/lwrpdump.cpp:188-193 | the position of the first line a reader acts on: no earlier line qualifies, and the one there does |
| Framing.FirstWhereAfter | src/lwmon/writefromfile.cpp:100-123 | lines none of which qualifies only shift the first qualifying line |
| Framing.FirstWhereKept | src/lwrpdump/lwrpdump.cpp:188-193 | once the lines handled so far end with their first match, longer input keeps it in the same place |
| FileWriter.WriteToDevice | src/lwmon/writefromfile.cpp:42-47 | the command goes out followed by CR LF, two bytes longer, and a warning is printed exactly when write(2) wrote a different number of bytes |
| FileWriter.ShortWrites | src/lwmon/writefromfile.cpp:42-47 | a run of writes prints at most one dropped-characters warning per command |
| FileWriter.NoShortWrite | src/lwmon/writefromfile.cpp:42-47 | no warning is printed exactly when every write(2) returned its command's length plus two |
| FileWriter.ShortWritesPair | src/lwmon/writefromfile.cpp:96-97 | the login's two writes warn one by one, each when its own count falls short |
| FileWriter.LoginLine | src/lwmon/writefromfile.cpp:89-95 | an absent or empty password gives the bare LOGIN; otherwise "LOGIN ", then the password |
| FileWriter.PasswordInForce | src/lwmon/writefromfile.cpp:131-133 | only a given but empty password is replaced, by the typed line trimmed, or by none when nothing could be read |
| FileWriter.ErrorMessage | src/lwmon/writefromfile.cpp:109-113 | the message is the parts after the first two joined with blanks; with fewer than two parts it is undefined as written and empty corrected |
| FileWriter.Reply | src/lwmon/writefromfile.cpp:104-114 | a reply line decides the login exactly when its first token is VER or ERROR, and never as unanswered |
| FileWriter.Decide | src/lwmon/writefromfile.cpp:104-114 | the tests on one completed line give what that trimmed line decides |
| FileWriter.LoginByte | src/lwmon/writefromfile.cpp:101-121 | one byte either extends the reply lines read so far, none of them decisive, or completes the first decisive line and returns what it decides |
| FileWriter.Login | src/lwmon/writefromfile.cpp:85-126 | the login and version commands are sent as write(2) calls 0 and 1, each short one printing a dropped-characters warning, and the outcome is that of the first decisive line of the bytes received before the first empty read, unanswered when there is none; corrected no terminator falls outside the read buffer, while as written a first read that fills the buffer puts one past it |
| FileWriter.ReadReply | src/lwmon/writefromfile.cpp:99-125 | the read loop ends with the outcome of the first decisive line of the bytes received before the first empty read; it takes at least the first non-empty read and no read past the first empty one, all of them when unanswered; and it reports an overrun exactly when one of the reads it took stored its terminator outside the buffer |
| FileWriter.FeedChunk | src/lwmon/writefromfile.cpp:101-121 | the byte loop over one read either extends the undecided reply lines by the whole read or stops at the byte that completes the first decisive line, returning what that line decides |
| FileWriter.DecidedInRead | src/lwmon/writefromfile.cpp:99-113 | a decisive line completed inside read k decides the whole reply received |
| FileWriter.NoDecisionReceived | src/lwmon/writefromfile.cpp:99-125 | reading up to the first empty read with no decisive line leaves the login unanswered |
| FileWriter.OverrunsStep | src/lwmon/writefromfile.cpp:100 | one more read overruns the buffer exactly when the earlier ones did or its own terminator falls outside |
| FileWriter.FirstEmptyIsFirst | src/lwmon/writefromfile.cpp:99 | every read before the loop's last one returned bytes, and the one that ends it returned none |
| FileWriter.ConcatAppend | src/lwmon/writefromfile.cpp:99 | the bytes of two runs of reads are the bytes of the first run, then those of the second |
| FileWriter.ReceivedHas | src/lwmon/writefromfile.cpp:99-101 | the bytes of the reads before read k, then the first bytes of read k, begin the reply received |
| FileWriter.ReceivedAround | src/lwmon/writefromfile.cpp:99-101 | the reply received is the reads before read k, read k itself, then the later reads up to the first empty one |
| FileWriter.DecidedAt | src/lwmon/writefromfile.cpp:105-113 | a reply whose first decisive line completes at byte j is decided by that line, whatever follows |
| FileWriter.FileCommands | src/lwmon/writefromfile.cpp:201-209 | no more commands than file lines |
| FileWriter.FileCommandsSnoc | src/lwmon/writefromfile.cpp:202-207 | one more file line adds its trimmed text exactly when it passes the filter |
| FileWriter.TransferLine | src/lwmon/writefromfile.cpp:202-207 | one file line is written, followed by CR LF, exactly when it passes the filter, and a short write of it adds one warning |
| FileWriter.Transfer | src/lwmon/writefromfile.cpp:201-209 | the transfer writes the filtered commands, in file order, each followed by CR LF, as write(2) calls 2 onward, with one warning per short write |
| FileWriter.WriteFromFile | src/lwmon/writefromfile.cpp:128-210 | an unopenable file exits with the open error before anything is sent; so do a failed name lookup, with the gai_strerror text, and a connection no address accepts, with the strerror text; otherwise the login is sent and the run returns after the commands, exits with the device's message, exits with an empty message when unanswered, or reaches undefined behaviour |
| FileWriter.LoginReadsBack | src/lwmon/writefromfile.cpp:96-97 | the device reads the login and version commands as exactly those two lines |
| FileWriter.PasswordIsOneArgument | src/lwmon/writefromfile.cpp:93-95 | a password free of blanks and quotes reaches the device as the one argument of LOGIN |
| FileWriter.VersionReplyAccepts | src/lwmon/writefromfile.cpp:105-108 | a reply led by VER confirms the login |
| FileWriter.ErrorReplyMessage | src/lwmon/writefromfile.cpp:109-113 | an ERROR reply with a code refuses the login with exactly the text after the code |
| FileWriter.ErrorReplyParts | src/lwmon/writefromfile.cpp:104 | an ERROR reply splits into ERROR, the code, and the split of the message |
| FileWriter.QuietLinesIgnored | src/lwmon/writefromfile.cpp:115 | lines before the first decisive one do not change the outcome |
| FileWriter.NoDecisiveLine | src/lwmon/writefromfile.cpp:125 | a reply with no decisive line leaves the login unanswered |
| FileWriter.BareErrorWord | src/lwmon/writefromfile.cpp:104 | the bare reply ERROR splits into the one word |
| FileWriter.BareErrorUndefined | src/lwmon/writefromfile.cpp:109-111 | as written, the bare reply ERROR removes an element from an empty list, which is undefined |
| FileWriter.BareErrorRefused | src/lwmon/writefromfile.cpp:109-113 | corrected, the bare reply ERROR refuses the login with an empty message |
| FileWriter.CorrectedNeverUndefined | src/lwmon/writefromfile.cpp:109-113 | corrected, no reply line leads to undefined behaviour |
| FileWriter.FullReadOverruns | src/lwmon/writefromfile.cpp:99-100 | as written, read(2) may return the full 1024 bytes asked for, and a loop whose first read does so overruns the buffer however many reads it then takes |
| FileWriter.ReadsFit | src/lwmon/writefromfile.cpp:99-100 | corrected, when every read returns at most the 1023 bytes asked for, none of the reads the loop takes overruns the buffer |
| FileWriter.FilterByPrefix | src/lwmon/writefromfile.cpp:204-205 | every line starting with VER in any case is held back, while other commands pass |
| FileWriter.BlankAndCommentHeldBack | src/lwmon/writefromfile.cpp:203-204 | blank and comment lines are never written |
| MonitorObject.Commands | src/lwmon/lwmon_object.cpp:110-119 | a file contributes at most one command per line |
| MonitorObject.Session | src/lwmon/lwmon_object.cpp:105-121 | the session is LOGIN, then exactly the file's commands, then VER |
| MonitorObject.CommandsSnoc | src/lwmon/lwmon_object.cpp:111-117 | one more file line adds its trimmed text exactly when it passes the filter |
| MonitorObject.WouldWriteSnoc | src/lwmon/lwmon_object.cpp:72 | each passing line adds one WOULD WRITE report of the line with its CR LF |
| MonitorObject.Filter | src/lwmon/lwmon_object.cpp:111-114 | the line is trimmed and passes exactly when it is not a comment and its first word is neither IP nor VER in any case |
| MonitorObject.SendLine | src/lwmon/lwmon_object.cpp:111-118 | one file line is written, trimmed and followed by CR LF, exactly when it passes |
| MonitorObject.ShowLine | src/lwmon/lwmon_object.cpp:68-75 | one file line is reported exactly when it passes |
| MonitorObject.Monitor.constructor | src/lwmon/lwmon_object.cpp:33-60 | the monitor starts with an empty accumulator and running |
| MonitorObject.Monitor.ConnectedData | src/lwmon/lwmon_object.cpp:105-121 | on connecting the device is sent the session, each line followed by CR LF |
| MonitorObject.Monitor.WriteFromFile | src/lwmon/lwmon_object.cpp:63-77 | the same filtered commands are printed as WOULD WRITE reports, in file order |
| MonitorObject.Monitor.ProcessCommand | src/lwmon/lwmon_object.cpp:182-189 | a command ends the program exactly when its first token, trimmed, is VER |
| MonitorObject.Monitor.EndCommand | src/lwmon/lwmon_object.cpp:91-94 | a CR hands the accumulated command on, empties the accumulator, and ends the program exactly on a version reply |
| MonitorObject.Monitor.Advance | src/lwmon/lwmon_object.cpp:87-99 | one byte keeps the reader's state in step with the framing of the bytes read so far, or ends the program on the first version reply |
| MonitorObject.Monitor.ReadyRead | src/lwmon/lwmon_object.cpp:80-102 | a read ends the program exactly when a version reply is among the CR-terminated lines; otherwise the accumulator is what the framing leaves over |
| MonitorObject.VersionReplyInRead | src/lwmon/lwmon_object.cpp:85-101 | a version reply among the lines of the first j bytes is a version reply of the whole read |
| MonitorObject.CommandsAreFiltered | src/lwmon/lwmon_object.cpp:110-119 | the commands are exactly the trimmed file lines that pass the filter |
| MonitorObject.CommentHeldBack | src/lwmon/lwmon_object.cpp:112 | a line whose trimmed form starts with '#' is held back |
| MonitorObject.LeadingWordDecides | src/lwmon/lwmon_object.cpp:113-114 | a line led by a plain word passes exactly when that word is neither IP nor VER in any case |
| MonitorObject.BlankLineSentBare | src/lwmon/lwmon_object.cpp:111-116 | a blank line passes and goes out as a bare CR LF |
| MonitorObject.SessionReadsBack | src/lwmon/lwmon_object.cpp:105-121 | the device reads the session back line by line, LOGIN first and VER last |
| MonitorObject.VersionReplyEnds | src/lwmon/lwmon_object.cpp:185-188 | a reply led by VER and a blank ends the program, whatever follows |
| Lwrpdump.ApplyAll | src/lwrpdump/lwrpdump.cpp:37-101 | the option loop starts from port 93 and no dump flag, stops at the first refused switch, and any port it keeps fits in 16 bits |
| Lwrpdump.Configure | src/lwrpdump/lwrpdump.cpp:37-109 | start-up is refused exactly when the option loop refuses a switch; otherwise the port fits 16 bits, at least one kind is printed, and only the flags differ from what the loop kept |
| Lwrpdump.SwitchFlags | src/lwrpdump/lwrpdump.cpp:50-78 | one accepted switch sets a flag exactly when it names that kind or all kinds, and clears none |
| Lwrpdump.FlagsFromSwitches | src/lwrpdump/lwrpdump.cpp:50-101 | after the loop each flag is set exactly when its switch or --dump-all was given |
| Lwrpdump.PrintedKinds | src/lwrpdump/lwrpdump.cpp:50-109 | with no dump switch every kind is printed; otherwise exactly the kinds named, all of them for --dump-all |
| Lwrpdump.Process | src/lwrpdump/lwrpdump.cpp:172-194 | a line ends the program exactly when its first token is IP |
| Lwrpdump.PrintedSnoc | src/lwrpdump/lwrpdump.cpp:176-191 | one more handled line adds itself to the output exactly when it is printed |
| Lwrpdump.LwrpDump.constructor | src/lwrpdump/lwrpdump.cpp:33-118 | the dump starts with the configured flags, an empty accumulator, nothing printed, running |
| Lwrpdump.LwrpDump.ConnectedData | src/lwrpdump/lwrpdump.cpp:121-133 | on connecting the five requests DST, SRC, CFG GPO, VER and IP are written in that order, each followed by CR LF; standard output then gets the header comment line naming the peer address, port and time, and a blank line |
| Lwrpdump.HeaderLine | src/lwrpdump/lwrpdump.cpp:128-131 | the header is a '#' comment line that ends with the time stamp |
| Lwrpdump.HeaderLines | src/lwrpdump/lwrpdump.cpp:128-132 | for an address and time text without line feeds, the header splits into the comment line and a blank line, so the dumped replies start on the third line |
| Lwrpdump.LwrpDump.ProcessLwrp | src/lwrpdump/lwrpdump.cpp:172-194 | the tests in the order written print a reply line exactly when its kind was asked for, and end the program exactly on the IP line, as Process says |
| Lwrpdump.LwrpDump.EndLine | src/lwrpdump/lwrpdump.cpp:156-159 | an LF hands the trimmed line on, prints it when its kind is asked for, empties the accumulator and ends the program exactly on an IP line |
| Lwrpdump.LwrpDump.Advance | src/lwrpdump/lwrpdump.cpp:155-167 | one byte keeps the reader's state in step with the framing of the bytes read so far, or ends the program on the first IP line |
| Lwrpdump.LwrpDump.ReadyRead | src/lwrpdump/lwrpdump.cpp:150-169 | a read prints the asked-for lines among the LF-terminated lines up to the first IP line, and ends the program exactly when there is one; otherwise the accumulator is what the framing leaves over |
| Lwrpdump.EndsAt | src/lwrpdump/lwrpdump.cpp:188-193 | a read whose first IP line completes at byte j has handled exactly the lines up to that one |
| Lwrpdump.RequestsReadBack | src/lwrpdump/lwrpdump.cpp:123-127 | the device reads the requests back as the five request lines, in order, IP last |
| Lwrpdump.ReplyPrinted | src/lwrpdump/lwrpdump.cpp:176-191 | a reply whose first word is one of the five kinds is printed exactly when that kind was asked for, whatever follows the word |
| Colors.ColorName | src/colors.cpp:221 | a colour's name is seven characters starting with '#' |
| Colors.ColorStringLayout | src/colors.cpp:219-222 | the font tag has the fixed opening, the colour name at a fixed offset, the text, then the closing tag, so the text can be read back |
| Colors.Words | src/colors.cpp:52 | the quote-aware word split of a line is never empty |
| Colors.LwrpStep | src/colors.cpp:100-205 | the state machine never leaves states 0 to 6, the value-pairs state keeps every token, and the slot, field-value and plain states accept every token |
| Colors.LwrpRun | src/colors.cpp:98-213 | a run that is not refused ends in one of the states 0 to 6 |
| Colors.ValuePairsMarkup | src/colors.cpp:145-165 | the markup built for a value-pairs token is that token's output |
| Colors.PartsMarkup | src/colors.cpp:149-164 | the markup of the ':' parts is built part by part: first magenta, middles, last |
| Colors.MiddleMarkup | src/colors.cpp:152-157 | one middle part: grey when quoted, otherwise the part the code names |
| Colors.LwrpToken | src/colors.cpp:100-211 | one pass of the switch accepts the token exactly when the state machine does, with the same output and next state |
| Colors.ColorizeLwrp | src/colors.cpp:87-216 | the colorizer's result is the line's LWRP rendering: red for ERROR, the run's markup, or the line unchanged when a token is refused |
| Colors.RunMarkup | src/colors.cpp:98-213 | the token loop succeeds exactly when the run does, with the run's markup |
| Colors.RunRefused | src/colors.cpp:209-211 | a token the current state refuses makes the whole line come back unchanged |
| Colors.RunAccepted | src/colors.cpp:98-213 | a token the current state accepts extends the run by its output and moves to the next state |
| Colors.RunStopsAtFailure | src/colors.cpp:209-211 | once a token is refused, no later token changes that |
| Colors.UnknownCommandUnchanged | src/colors.cpp:101-136 | a line whose first word is not an LWRP command, ERROR aside, is shown unchanged |
| Colors.StepEndsWithSpace | src/colors.cpp:100-205 | every accepted token's output ends with one space |
| Colors.ValuePairsAcceptRest | src/colors.cpp:144-167 | once in the value-pairs state, every following token is accepted and the state stays |
| Colors.MiddlePlain | src/colors.cpp:151-158 | corrected, the middle parts show joined by ':' |
| Colors.ValuePairsPlain | src/colors.cpp:145-165 | corrected, a value-pairs token shows exactly its own text and a space |
| Colors.PartsPlain | src/colors.cpp:149-164 | corrected, the parts show joined by ':' and followed by a space |
| Colors.StepPlain | src/colors.cpp:100-205 | corrected, every accepted token shows as itself and a space |
| Colors.RunPlain | src/colors.cpp:98-213 | corrected, a run that succeeds shows the tokens joined by spaces |
| Colors.LwrpShowsLine | src/colors.cpp:87-216 | corrected, a colorized LWRP line shows exactly the trimmed line and a space |
| Colors.FourParts | src/colors.cpp:145 | four parts free of ':' and quotes, joined by ':', split back into themselves |
| Colors.MiddlePartRepeated | src/colors.cpp:156 | as written, a value a:p:q:d shows as a:p:p:d, the first middle part twice; corrected it shows a:p:q:d |
| Colors.FourPartsAsWritten | src/colors.cpp:151-158 | as written, unquoted middle parts all show as the first middle part |
| Colors.Items | src/colors.cpp:62-65 | the comma-separated items after the first two words are never empty |
| Colors.LwcpItemsMarkup | src/colors.cpp:66-79 | the item loop builds the items' markup |
| Colors.AppendItem | src/colors.cpp:67-78 | one pass of the item loop adds exactly that item's markup |
| Colors.ItemMarkup | src/colors.cpp:67-78 | an item shows its name in magenta and, for a name=value pair, '=', the value (grey when quoted) and ',' |
| Colors.ColorizeLwcp | src/colors.cpp:50-84 | the colorizer's result is the line's LWCP rendering |
| Colors.BodyMarkup | src/colors.cpp:59-79 | the head words in blue and dark green, then the items |
| Colors.CutMarkup | src/colors.cpp:80 | the final cut drops the last character as written; corrected it drops only a trailing ',' |
| Colors.ItemOutEnd | src/colors.cpp:68-78 | a pair's output ends with ',', any other item's with the closing font tag |
| Colors.ItemsEnd | src/colors.cpp:66-79 | the items' output ends as the last item's does |
| Colors.HeadEnds | src/colors.cpp:59-61 | the head words add nothing at the end of the output |
| Colors.LwcpBodyEnds | src/colors.cpp:59-79 | when the last item is not a pair, the body ends with the closing font tag |
| Colors.BodyEndsWithComma | src/colors.cpp:59-79 | when the last item is a pair, the body ends with ',' |
| Colors.CutTag | src/colors.cpp:80 | as written the cut turns a closing "</font>" into "</font"; corrected it leaves it whole |
| Colors.LwcpCutsClosingTag | src/colors.cpp:80 | as written, when the last item is not a name=value pair the reply's markup ends in a broken "</font" |
| Colors.LwcpKeepsClosingTag | src/colors.cpp:80 | corrected, the same reply keeps its closing font tag whole |
| Colors.PairItemPlain | src/colors.cpp:67-78 | a name=value item shows as itself and a ',' |
| Colors.PairsPlain | src/colors.cpp:66-79 | items that are all pairs show as themselves joined by ',' with a final ',' |
| Colors.TwoWordsNoPair | src/colors.cpp:62-67 | a line of two words has one empty item, which is not a pair |
| Colors.BodyPlain | src/colors.cpp:59-79 | with every item a pair, the head and items show as the words joined by blanks, then ',' |
| Colors.LwcpShowsLine | src/colors.cpp:50-84 | corrected, a line whose items are all pairs shows exactly as the trimmed line |
| Colors.BodyShows | src/colors.cpp:59-80 | for such a line the body shows the words joined and the cut removes only the final ',' |
| Colors.Colorize | src/colors.cpp:23-47 | the line is unchanged when colouring is off or in the address mode, and rendered by the mode's colorizer otherwise |
| Colors.ErrorLineIsRed | src/colors.cpp:55-57 | a line whose first word is ERROR is wrapped whole in red by both colorizers |
| CmdSwitch.KeysOf | src/lwmultcap/cmdswitch.cpp:36-75 | one key per argument after the program name |
| CmdSwitch.ValuesOf | src/lwmultcap/cmdswitch.cpp:36-75 | one value per argument after the program name |
| CmdSwitch.FirstStop | src/lwmultcap/cmdswitch.cpp:38-46 | the program stops exactly when --version or --help is among the arguments, printing the version or the help text |
| CmdSwitch.JoinRemainder | src/lwmultcap/cmdswitch.cpp:54-56 | the rejoining loop gives the parts after the first joined back with '=' |
| CmdSwitch.TokenizeOne | src/lwmultcap/cmdswitch.cpp:50-74 | one argument becomes the key and value of its tokenization |
| CmdSwitch.Tokenize | src/lwmultcap/cmdswitch.cpp:36-75 | the loop stops at the first --version or --help; otherwise the keys and values are those of the arguments, nothing is processed yet, and debugging is on exactly when -d was given |
| CmdSwitch.EntriesSnoc | src/lwmultcap/cmdswitch.cpp:53-73 | one more argument adds its key and its value at the end of the lists |
| CmdSwitch.CmdSwitch.FromArguments | src/lwmultcap/cmdswitch.cpp:30-76 | the tokenizer over the application's arguments, with the version line that has a trailing blank |
| CmdSwitch.CmdSwitch.FromArgv | src/lwmultcap/cmdswitch.cpp:79-124 | the tokenizer over argc/argv |
| CmdSwitch.CmdSwitch.ForRpdump | src/lwrpdump/cmdswitch.cpp:32-75 | the tokenizer with a module version and no debug switch |
| CmdSwitch.CmdSwitch.SetProcessed | src/lwmultcap/cmdswitch.cpp:151-154 | writes flag n and nothing else |
| CmdSwitch.CmdSwitch.AllProcessed | src/lwmultcap/cmdswitch.cpp:157-165 | true exactly when every flag is set, and true for no arguments |
| CmdSwitch.EntryWithoutEquals | src/lwmultcap/cmdswitch.cpp:70-73 | an argument without '=' is the key, with an empty value |
| CmdSwitch.SplitAtFirst | src/lwmultcap/cmdswitch.cpp:50 | splitting at '=' gives the part before the first '=', then the split of the rest |
| CmdSwitch.EntryAtFirstEquals | src/lwmultcap/cmdswitch.cpp:51-67 | k=v with a dash-led k is key k and value v; otherwise the whole argument is the key and the value is empty |
| CmdSwitch.EntryRestores | src/lwmultcap/cmdswitch.cpp:50-74 | key and value give the argument back: key=value, or the key alone or followed by '=' when the value is empty |
| CmdSwitch.DashKeyKeepsLaterEquals | src/lwmultcap/cmdswitch.cpp:53-56 | -k=a=b has key -k and value a=b |
| CmdSwitch.DebugIsAlsoAKey | src/lwmultcap/cmdswitch.cpp:47-49 | -d switches debugging on and is still recorded as a key with an empty value |
| LineEditor.BaseEdit | src/lineedit.cpp:96-173 | the base field appends a typed character, drops the last one on backspace, and leaves the text otherwise |
| LineEditor.Press | src/lineedit.cpp:64-176 | every key keeps the history cursor on an entry or just past the last one |
| LineEditor.PressEnter | src/lineedit.cpp:67-77 | Enter and Return keep the history cursor in range |
| LineEditor.LoadedHistory | src/lineedit.cpp:41-43 | one history entry per line of the file |
| LineEditor.LineEdit.constructor | src/lineedit.cpp:27-31 | a new field has an empty history, cursor 0 and no text |
| LineEditor.LineEdit.KeyPress | src/lineedit.cpp:64-176 | the key handler's new state and forwarding are those the key's specification gives |
| LineEditor.LineEdit.Enter1 | src/lineedit.cpp:67-77 | the Enter branch's new state and forwarding are those the specification gives |
| LineEditor.LineEdit.LoadHistory | src/lineedit.cpp:34-47 | the history is cleared, then holds the file's lines trimmed with the cursor past the last one when the file opens; the text is kept |
| LineEditor.EnterRecords | src/lineedit.cpp:67-77 | Enter on an empty line does nothing; otherwise it records the line unless it repeats the newest entry, moves past the last entry and forgets the kept text |
| LineEditor.PressKeepsNoRepeats | src/lineedit.cpp:70-72 | key handling never records a line twice in a row |
| LineEditor.UpShowsPrevious | src/lineedit.cpp:79-83 | Up moves to the previous entry and shows it; at the oldest entry it does nothing |
| LineEditor.DownRestoresKeptText | src/lineedit.cpp:85-92 | Down from the newest entry or past it brings back the kept text |
| LineEditor.UpThenDown | src/lineedit.cpp:79-92 | Up then Down returns to the same entry whenever there is one below the newest |
| LineEditor.TypingKeepsText | src/lineedit.cpp:94-170 | a typed printable character is kept aside with the text; Backspace keeps the text shortened to the kept length less one, or the whole text when nothing is kept |
| LineEditor.LoadAfterConstruction | src/lineedit.cpp:34-47 | a history loaded right after construction leaves the cursor in range |
| SubscriptionTable.AddRow | src/lwcast/subscriptionmodel.cpp:97-113 | adding keeps the three lists in parallel |
| SubscriptionTable.RemoveRow | src/lwcast/subscriptionmodel.cpp:116-125 | removing keeps the three lists in parallel |
| SubscriptionTable.Data | src/lwcast/subscriptionmodel.cpp:76-94 | a cell has a value exactly for the display role in column 0 or 1 |
| SubscriptionTable.HeaderData | src/lwcast/subscriptionmodel.cpp:59-73 | a header has a title exactly for horizontal display sections 0 and 1 |
| SubscriptionTable.SubscriptionModel.constructor | src/lwcast/subscriptionmodel.cpp:34-38 | a new model has no rows |
| SubscriptionTable.SubscriptionModel.RowCount | src/lwcast/subscriptionmodel.cpp:47-50 | one row per subscribed group address |
| SubscriptionTable.SubscriptionModel.ColumnCount | src/lwcast/subscriptionmodel.cpp:53-56 | two columns |
| SubscriptionTable.SubscriptionModel.FindPair | src/lwcast/subscriptionmodel.cpp:101-105 | the duplicate scan finds a row exactly when the address and interface name pair is listed |
| SubscriptionTable.SubscriptionModel.AddAddress | src/lwcast/subscriptionmodel.cpp:97-113 | the new table and error are those of adding the row; the lists stay parallel and free of duplicate pairs |
| SubscriptionTable.SubscriptionModel.RemoveAddress | src/lwcast/subscriptionmodel.cpp:116-125 | the new table and error are those of removing the row; the lists stay parallel and free of duplicate pairs |
| SubscriptionTable.AddKeepsNoDuplicates | src/lwcast/subscriptionmodel.cpp:101-112 | adding never lists an address and interface name pair twice |
| SubscriptionTable.RemoveKeepsNoDuplicates | src/lwcast/subscriptionmodel.cpp:118-124 | removing never lists a pair twice |
| SubscriptionTable.AddListsPair | src/lwcast/subscriptionmodel.cpp:97-144 | afterwards the pair is listed exactly when it was before or the kernel accepted it; an error is emitted exactly for a new pair the kernel refused; a change adds one row |
| SubscriptionTable.AddTwice | src/lwcast/subscriptionmodel.cpp:101-105 | adding a listed pair again changes nothing and emits nothing |
| SubscriptionTable.AddThenRemove | src/lwcast/subscriptionmodel.cpp:106-124 | removing the row just added gives back the table it was added to |
| SubscriptionTable.RemoveDropsRow | src/lwcast/subscriptionmodel.cpp:116-163 | an accepted removal drops exactly the chosen row, keeping every other row and its order; a refused one changes nothing and emits an error |
| SubscriptionTable.FirstColumnReadsBack | src/lwcast/subscriptionmodel.cpp:81-83 | the first column reads back as the row's interface name and address |
| HostAddress.FieldValue | src/lwcast/addaddressdialog.cpp:99 | an accepted dotted-quad field is below 256 |
| HostAddress.Parse | src/lwcast/addaddressdialog.cpp:99-101 | a parsed address fits in 32 bits |
| HostAddress.Octets | src/lwcast/subscriptionmodel.cpp:86 | an address prints as four octets, each below 256 |
| HostAddress.FirstOctet | src/lwcast/addaddressdialog.cpp:106 | shifting the packed address right by 24 gives its first octet |
| HostAddress.OctetsPack | src/lwcast/subscriptionmodel.cpp:86 | the octets of an address below 2^32 pack back to it |
| HostAddress.TextRoundTrip | src/lwcast/subscriptionmodel.cpp:82-86 | printing then parsing an address gives it back, and the text holds no blank |
| HostAddress.ParseThenText | src/lwcast/addaddressdialog.cpp:99 | a dotted quad of octets parses to their packed value, which prints back as the same text |
| HostAddress.PackOctets | src/lwcast/addaddressdialog.cpp:106 | the octets of a packed address are the ones packed |
| QtText.JoinSplit | src/lwmon/lwmon.cpp:459-465 | joining the parts of a split with the same separator gives the string back |
| QtText.SplitJoin | src/lwmon/lwmon.cpp:459-465 | splitting a join of separator-free parts on a one-character separator gives the parts back |
| QtText.SplitCount | src/lwmon/lwmon.cpp:479-480 | a one-character separator gives one part more than it has occurrences |
| QtText.TrimmedKeeps | src/lwrpdump/lwrpdump.cpp:157 | a string with no white space at either end is its own trimmed form |
| QtText.DecimalRoundTrip | src/lwmon/lwmon.cpp:471 | "%u" output is all digits and parses back to the number |
| QtText.HexLowerRoundTrip | src/lwmon/lwmon.cpp:525-526 | "%0wx" output is all hex digits and parses back to the number |
| QtText.HexUpperRoundTrip | src/lwmultcap/lwmultcap.cpp:223 | "%0wX" output parses back to the number |
| QtText.HexLowerLength | src/lwmon/lwmon.cpp:525-526 | a value below 16^w is printed in exactly w hex digits |
| QtText.DottedQuadSplits | src/lwmon/lwmon.cpp:479-480 | a dotted quad splits on '.' into its four decimal fields and holds no ':', '-' or blank |
| Lwmultcap.ParsePort | src/lwmultcap/lwmultcap.cpp:93-101 | an accepted port is an unsigned number no greater than 0xFFFF |
| Lwmultcap.ParseOffset | src/lwmultcap/lwmultcap.cpp:55-66 | an accepted offset, hex after 0x or 0X or decimal, fits a signed 32-bit int (OffsetRoundTripLower, OffsetRoundTripUpper, OffsetRoundTripDecimal: written offsets read back) |
| Lwmultcap.ApplyAll | src/lwmultcap/lwmultcap.cpp:54-121 | the option loop stops at the first refused switch, and any port it keeps fits in 16 bits |
| Lwmultcap.Configure | src/lwmultcap/lwmultcap.cpp:54-137 | a run goes on only with an interface address, a multicast address and a non-zero port that fits in 16 bits |
| Lwmultcap.OffsetRoundTripLower | src/lwmultcap/lwmultcap.cpp:56-58 | an offset written in lower-case hex after "0x" reads back as the number written |
| Lwmultcap.OffsetRoundTripUpper | src/lwmultcap/lwmultcap.cpp:79-81 | an offset written in upper-case hex after "0X" reads back as the number written |
| Lwmultcap.OffsetRoundTripDecimal | src/lwmultcap/lwmultcap.cpp:60-62 | an offset written in decimal reads back as the number written |
| Lwmultcap.Visible | src/lwmultcap/lwmultcap.cpp:222-229 | the text column shows a byte as itself or as '.', never anything outside '!'..'~' |
| Lwmultcap.HexByte | src/lwmultcap/lwmultcap.cpp:223 | a byte prints as two hex digits |
| Lwmultcap.HexCols | src/lwmultcap/lwmultcap.cpp:220-235 | the hex column takes three characters per position |
| Lwmultcap.TextCols | src/lwmultcap/lwmultcap.cpp:220-235 | the text column takes one character per position |
| Lwmultcap.RowsOf | src/lwmultcap/lwmultcap.cpp:215-238 | one printed line per row shown |
| Lwmultcap.RowLine | src/lwmultcap/lwmultcap.cpp:219-236 | the inner loop prints the row's line: offset, hex column, text column |
| Lwmultcap.RowLines | src/lwmultcap/lwmultcap.cpp:215-238 | the outer loop prints the lines of the rows shown, in offset order |
| Lwmultcap.AddRow | src/lwmultcap/lwmultcap.cpp:216-237 | one pass adds the row at i exactly when it is shown, and the rest follows from i + 16 |
| Lwmultcap.DumpToHex | src/lwmultcap/lwmultcap.cpp:210-242 | the dump is the optional ruler, the rows shown, and a blank line after a ruler |
| Lwmultcap.Dump | src/lwmultcap/lwmultcap.cpp:210-242 | a datagram prints one line per row shown, with the ruler first and a blank line last when the ruler is on (OffsetsAre: which rows are shown) |
| Lwmultcap.RowsStep | src/lwmultcap/lwmultcap.cpp:215-218 | the row at i is printed exactly when it lies within the offsets, followed by the rows from i + 16 |
| Lwmultcap.OffsetsAre | src/lwmultcap/lwmultcap.cpp:215-218 | a row is printed at offset o exactly when o is a multiple of 16 inside the data and within the first and last offsets |
| Lwmultcap.RowCount | src/lwmultcap/lwmultcap.cpp:215 | with no limits, one row per started 16 bytes |
| Lwmultcap.RowColumns | src/lwmultcap/lwmultcap.cpp:220-234 | position j of a row shows its byte as two hex digits that read back to the byte and its visible form, or blanks past the end of the data |
| Lwmultcap.TextColumn | src/lwmultcap/lwmultcap.cpp:224-233 | position j of the text column is the byte's visible form, or a blank past the end |
| Lwmultcap.HexColumn | src/lwmultcap/lwmultcap.cpp:221-233 | position j of the hex column is the byte in hex and a blank, or three blanks past the end |
| Lwcap.ApplySwitch | src/lwcap/lwcap.cpp:60-100 | one pass of the option loop goes on only for one of the five switches lwcap knows; a bad number or address, or an unknown switch, ends it with its message |
| Lwcap.ApplyAll | src/lwcap/lwcap.cpp:60-101 | the option loop goes on past switch n only when every switch before it is one lwcap knows |
| Lwcap.Configure | src/lwcap/lwcap.cpp:59-109 | a capture starts only with both a multicast and an interface address and only known switches |
| Lwcap.ConfigureLoop | src/lwcap/lwcap.cpp:60-109 | the loop that exits at the first refused switch ends exactly as the option specification Configure says |
| Lwcap.RefusalSticks | src/lwcap/lwcap.cpp:63-99 | once a switch is refused, no later switch changes the outcome |
| Lwcap.UnknownSwitchRefused | src/lwcap/lwcap.cpp:97-100 | a switch lwcap does not know refuses the whole command line, wherever it stands |
| Lwcap.ChannelsDefault | src/lwcap/lwcap.cpp:54 | without --channels the sound file gets two channels |
| Lwcap.Sample | src/lwcap/lwcap.cpp:221-224 | each repacked sample is four bytes |
| Lwcap.RepackedUpTo | src/lwcap/lwcap.cpp:220-225 | n samples repack into 4n bytes |
| Lwcap.Repacked | src/lwcap/lwcap.cpp:220 | a payload repacks into four bytes per whole three-byte sample; a trailing partial sample is dropped |
| Lwcap.UnpackedUpTo | src/lwcap/lwcap.cpp:220-225 | n words unpack into 3n bytes (the inverse used to state the round trip) |
| Lwcap.RepackRoundTrip | src/lwcap/lwcap.cpp:220-225 | repacking loses no sample byte: unpacking the words gives back the whole samples, and each word's low byte is zero |
| Lwcap.LowBytesZero | src/lwcap/lwcap.cpp:221 | the low byte of every repacked word is zero |
| Lwcap.UnpackedPrefix | src/lwcap/lwcap.cpp:220-225 | unpacking n words reads only those words |
| Lwcap.WordCarriesSample | src/lwcap/lwcap.cpp:221-226 | word i of the buffer is sample i, and read as a 32-bit little-endian integer it is the 24-bit big-endian sample scaled by 256 |
| Lwcap.WritePcm24 | src/lwcap/lwcap.cpp:210-228 | with no file (any channel count, zero included) the payload goes raw to standard output and a failure is reported by the build's check; with a file the whole samples are repacked and the build's frame count is handed on |
| Lwcap.RepackInto | src/lwcap/lwcap.cpp:220-225 | the repacking loop leaves the first 4n bytes of the buffer equal to the repacked samples |
| Lwcap.RepackedOfPrefix | src/lwcap/lwcap.cpp:220 | the samples repacked from the first `bytes` bytes are the first bytes/3 samples of the data |
| Lwcap.PrefixSamples | src/lwcap/lwcap.cpp:220-225 | repacking n samples depends only on their bytes |
| Lwcap.Payload | src/lwcap/lwcap.cpp:158-162 | the length passed on is the datagram's length, at most 1500, less the 12-byte RTP header, and never more than the bytes there |
| Lwcap.PayloadFitsBuffer | src/lwcap/lwcap.cpp:161-162 | no datagram, read at most 1500 bytes at a time, overflows the 1440-sample repacking buffer |
| Lwcap.ReadyRead | src/lwcap/lwcap.cpp:154-165 | datagrams are read until one comes back empty, and each one read is handled as its payload says, in order |
| Lwcap.HandleDatagram | src/lwcap/lwcap.cpp:161-162 | one datagram is handled by passing its payload to WritePcm24 |
| Lwcap.FramesAsWritten | src/lwcap/lwcap.cpp:226 | as written, bytes/6 frames are handed on whatever the channel count: half the samples repacked for one channel, twice as many for four |
| Lwcap.FramesCorrected | src/lwcap/lwcap.cpp:226 | corrected, the frames handed on cover no more samples than were repacked and leave less than one frame unread |
| Lwcap.StdoutCheck | src/lwcap/lwcap.cpp:215-217 | as written, writing every byte of a payload longer than one byte is reported as a failure; corrected, exactly the short or failed writes are |
| LegacyMonitor.FirstBad | src/lwmon.cpp:49-68 | the position found is the first switch before the last argument that is not a `--mode` with an accepted value: every switch before it is one, and it is not |
| LegacyMonitor.HostPort | src/lwmon.cpp:95-107 | a connection keeps the dialect chosen and a port in 1..65535; every refusal exits with the build's status |
| LegacyMonitor.Endpoint | src/lwmon.cpp:95-107 | from the ':'-separated parts, a connection goes to the first part as host name with a port in 1..65535 |
| LegacyMonitor.Configure | src/lwmon.cpp:43-48 | with no argument at all the usage text is printed and the program exits |
| LegacyMonitor.Arguments | src/lwmon.cpp:43-107 | the switch loop that exits at the first bad switch ends as the start-up specification Configure says |
| LegacyMonitor.ConfigureRejects | src/lwmon.cpp:59-68 | the first bad switch before the last argument ends start-up with that switch's message |
| LegacyMonitor.ConfigureConnects | src/lwmon.cpp:74-107 | when every switch before the last argument is an accepted `--mode`, the last argument is read as host[:port] in the dialect the switches leave |
| LegacyMonitor.BadSwitch | src/lwmon.cpp:59-67 | a bad `--mode` value and an unknown switch each print their own message and exit |
| LegacyMonitor.Switch | src/lwmon.cpp:50-68 | one pass of the switch loop marks the switch processed exactly when it is an accepted `--mode`, and then the mode is the one it names |
| LegacyMonitor.FirstBadStays | src/lwmon.cpp:49-68 | once a bad switch is found, later switches do not change which one is reported |
| LegacyMonitor.FormatLwcp | src/lwmon.cpp:240-253 | typed text is wrapped in `<strong>` and `</strong>` with the text unchanged inside; the device's text is shown as it is |
| LegacyMonitor.Monitor.constructor | src/lwmon.cpp:35-133 | the session starts with nothing gathered and nothing shown |
| LegacyMonitor.Monitor.EditReturnPressed | src/lwmon.cpp:157-163 | the typed line is shown in bold and sent with CR LF, and the device's partial line is untouched |
| LegacyMonitor.Monitor.ReadyRead | src/lwmon.cpp:166-188 | LF is dropped, CR shows the line gathered so far, and the rest stays gathered for the next read |
| LegacyMonitor.ModeFromPath | src/lwmon.cpp:275-288 | the program path's last part `lwcp` selects LWCP; any other name, `lwrp` included, gives LWRP |
| LegacyMonitor.ModeFromName | src/lwmon.cpp:275-288 | a program name with no directory selects LWCP exactly when it is `lwcp` (ModeFromPath: any path) |
| LegacyMonitor.LastPartOfJoin | src/lwmon.cpp:279-280 | the last '/'-separated part of a path is the file name that was joined last |
| LegacyMonitor.ModeSwitchWins | src/lwmon.cpp:50-58 | a `--mode` of lwcp or lwrp, in either case, sets the dialect whatever came before |
| LegacyMonitor.RefusedSwitch | src/lwmon.cpp:49-68 | any switch before the last argument that is not an accepted `--mode` refuses start-up |
| LegacyMonitor.DefaultPortUsed | src/lwmon.cpp:74-100 | a host name alone connects to port 4010 for LWCP and 93 for LWRP |
| LegacyMonitor.HostPortRoundTrip | src/lwmon.cpp:95-107 | `host:port` with a port in 1..65535 connects to that host and port in both builds |
| LegacyMonitor.PortArgument | src/lwmon.cpp:95-102 | `host:port` splits into the host and the port's digits, which read back as the port |
| LegacyMonitor.DecimalHasNoColon | src/lwmon.cpp:95 | a port's decimal digits never hold the ':' separator |
| LegacyMonitor.ExtraColonRefused | src/lwmon.cpp:96-99 | an argument with more than one ':' is refused with "invalid argument" |
| LegacyMonitor.PortWrapsAround | src/lwmon.cpp:101-106 | as written (the port variable is 16 bits wide), a port above 65535 that is not a multiple of 65536 is stored modulo 65536 and accepted |
| LegacyMonitor.LargePortRefused | src/lwmon.cpp:102-106 | corrected, a port above 65535 is refused as an invalid port value |
| LegacyMonitor.StoredPort | src/lwmon.cpp:37-102 | a port up to 65535 is stored as parsed; as written a larger one is stored modulo 65536, in 16 bits, and corrected it is kept whole |
| LegacyMonitor.StartupRejectionLooksLikeSuccess | src/lwmon.cpp:44-106 | as written, every start-up refusal exits with 256, which a shell sees as status 0 |
| LegacyMonitor.StartupRejectionFails | src/lwmon.cpp:44-106 | corrected, every start-up refusal is seen as a failure |
| LegacyMonitor.ReplyLinesShown | src/lwmon.cpp:171-186 | a device line ended by CR LF is shown as it came, with nothing left gathered |
| MasterDiscovery.GetAddress | src/lwmaster/lwmaster.c:44-137 | the poll/read loop ends as the specification Discover says, and hands poll() exactly the timeouts DiscoverTimeouts lists |
| MasterDiscovery.Turn | src/lwmaster/lwmaster.c:72-133 | one turn either ends the wait with Wait's outcome after one poll(), or reads the clock and goes on with the time left to the deadline, truncated to whole milliseconds |
| MasterDiscovery.Subscribe | src/lwmaster/lwmaster.c:140-189 | with the subscription socket open, the group join and promiscuous-mode requests are made interface by interface from index 1, stopping at the first refused one; without it nothing is requested |
| MasterDiscovery.WordBytes | src/lwmaster/lwmaster.c:95-96 | a word packed from four bytes, first byte on top, gives those bytes back in order |
| MasterDiscovery.SourceWordLayout | src/lwmaster/lwmaster.c:99-109 | on a little-endian host the packed source word lies in memory as frame bytes 26 to 29, so the node printed is the frame's IPv4 source as a dotted quad |
| MasterDiscovery.DestinationIsGroup | src/lwmaster/lwmaster.c:95-97 | a frame is addressed to the master group exactly when bytes 30 to 33 are 239.192.255.2 |
| MasterDiscovery.MasterOnlyFromAnnouncement | src/lwmaster/lwmaster.c:92-110 | a master is only reported from a 78-byte frame to the master group that was actually read, and the node is that frame's source |
| MasterDiscovery.FirstAnnouncementWins | src/lwmaster/lwmaster.c:72-133 | when turns read nothing of note before the deadline and then an announcement comes, that announcement's source is reported |
| MasterDiscovery.DeadlineEndsWait | src/lwmaster/lwmaster.c:125-135 | a quiet turn whose clock reading passes the 100 ms deadline ends the wait with no master |
| MasterDiscovery.TimeoutsBounded | src/lwmaster/lwmaster.c:49-132 | poll() is first given the full 100 ms, and never more than 100 ms nor less than 1 ms afterwards |
| MasterDiscovery.SubscriptionComplete | src/lwmaster/lwmaster.c:140-189 | subscribing succeeds exactly when every interface accepts both requests, and then each interface gets a group join followed by promiscuous mode, in index order |
| MasterDiscovery.Discover | src/lwmaster/lwmaster.c:44-137 | a failed first clock reading ends with a clock failure, and a master is reported only as the source of a clock announcement that was read (FirstAnnouncementWins and DeadlineEndsWait for the two ways the wait ends) |
| MasterDiscovery.Printed | src/lwmaster/lwmaster.c:85-136 | at most one line is printed: the master's address, or 0.0.0.0 when the deadline passes with no master |
| MasterDiscovery.Status | src/lwmaster/lwmaster.c:62-136 | the status is 0 exactly when an address is printed, and 1 otherwise |
| MasterDiscovery.Lwmaster | src/lwmaster/lwmaster.c:192-225 | a run succeeds exactly when it prints one address, which needs both sockets, every subscription and a clock reading; every failure prints nothing and exits with 1 |

## Left out

- Windows, dialogs, message boxes, layout and timers are presentation. Only the decisions and texts behind them are modelled.
- Socket, bind, connect, setsockopt, ioctl, poll, recv, read and write calls are taken as parameters (success flags, datagrams, byte sequences), so errno texts are parameters too.
- The socket error and disconnect handlers (tcpErrorData, tcpDisconnectedData, errorData) only show a message and exit.
- The clock in lwmaster is an integer count of microseconds, so the double-precision deadline arithmetic and its rounding are not modelled.
- The SIGINT/SIGTERM handler and the exit latch in lwcap depend on asynchronous signal delivery.
- The duration timer in lwcap is a timer event.
- libsndfile is not modelled: the sound file is what is handed to it (the repacked words and the frame count). The WAV, 48000 Hz, 24-bit and channel settings appear only as constants.
- Opening the sound file (`sf_open`, `src/lwcap/lwcap.cpp:120-125`) is not modelled. libsndfile refuses a WAV file of zero channels there, so a file capture with `--channels=0` never starts; the file-writing members ask for a channel count above zero only when a file is written. The standard-output capture accepts `--channels=0`.
- File contents are sequences of lines or bytes. Opening, reading, `fgets`, `fdopen`, terminal echo control and saving the line editor's history are I/O.
- printf column layout is modelled only where a listing or a dump row is built from it.
- The `cmdswitch.h` used by `src/lwmon.cpp` is not part of this model, so the older monitor's switches are taken as already-tokenized key/value lists.
- Qt number parsing is modelled as its core grammar: a non-empty string of digits in the base, within the type's range. Qt's tolerance of surrounding blanks, a '+' sign and a "0x" prefix in base 16 is not modelled.
- QHostAddress parsing is the strict four-field dotted-quad IPv4 form. IPv6 and the short inet_aton forms are not modelled.
- Text is sequences of characters. UTF-8 conversion and Unicode case mapping beyond ASCII are not modelled.
- LineEditor.BaseEdit: the base text field's own editing is modelled with the cursor at the end of the line, so cursor movement and selection are not modelled.
- FileWriter.WriteFromFile: the overrun flag Login returns is not acted on. As written, a read that fills the 1024-byte buffer stores its terminator past it, which is undefined behaviour; the run is modelled as going on as though that store were harmless (FileWriter.FullReadOverruns exhibits the case).
- FileWriter.ReadReply: each read(2) is the bytes it returned; a read that returns 0 or fails is an empty read, which ends the loop in the same way, so the error code of a failing read is not modelled.
- The host is taken to be little-endian. MasterDiscovery.SourceWordLayout and Lwcap.WordCarriesSample state the byte layout of lwmaster's packed source word and of lwcap's 32-bit sample words for that byte order only; a big-endian host is not modelled.
- LegacyMonitor.Monitor.EditReturnPressed: the typed line is sent whole, followed by CR LF. `src/lwmon.cpp:158-159` passes `text().length()+2` as the byte count, which counts UTF-16 code units rather than UTF-8 bytes, so a line holding non-ASCII characters would lose its last bytes, CR LF included; the model does not encode text as UTF-8, so it sends the whole line.
- MasterDiscovery.GetAddress: the answers to the loop's system calls are a finite sequence, and running out of them is reported as its own outcome (`PassesExhausted`), which the program itself never reaches.

## Findings

| source | as written | input that shows it | evidently intended | confidence | as-written member | corrected member |
|---|---|---|---|---|---|---|
| src/lwmon/lwmon.cpp:444-449 | stream-ID prefix 0xefc4 is classed as backfeed and 0xefc1 as surround, while the listing puts backfeed at 239.193 (0xefc1) and surround at 239.196 (0xefc4) | the backfeed stream ID of source 5, `efc10005`, decodes as surround source 5 | each prefix decodes to the family it is listed under | not executed | AddressCodec.StreamIdFamiliesSwapped | AddressCodec.StreamIdRoundTripCorrected |
| src/lwmon/lwmon.cpp:498 | `octets[2]=255` assigns instead of comparing | `239.192.200.3` is reported as special channel 3 | only 239.192.255.1 to .4 are special channels | not executed | AddressCodec.SpecialChannelsAsWritten | AddressCodec.SpecialChannelsCorrected |
| src/lwmon/lwmon.cpp:516-517 | `snprintf(…,7,…)` cuts any seven-character pair `ddd.ddd` to six: the surround pair once the low byte has three digits, the stereo and backfeed pair once both bytes do | source 100 is listed at surround address 239.196.128.10, the address of source 10; source 25700 at stereo address 239.192.100.10 and backfeed address 239.193.100.10, those of source 25610 | the whole pair is printed | not executed | AddressCodec.AddressCutShort | AddressCodec.ListedAddressesDecode |
| src/lwmon/lwmon.cpp:504-505 | a rejected argument calls `exit(256)`, which a shell reads as status 0 | the argument `xyz` is reported as invalid, and the run still looks successful | a non-zero status | not executed | AddressCodec.RejectionLooksLikeSuccess | AddressCodec.RejectionStatusCorrected |
| src/lwmon.cpp:44-106 | every start-up refusal calls `exit(256)`, read as status 0 | `lwmon` with no argument | a non-zero status | not executed | LegacyMonitor.StartupRejectionLooksLikeSuccess | LegacyMonitor.StartupRejectionFails |
| src/lwmon.cpp:102 | the port is parsed as 32 bits and stored in a 16-bit variable | `host:65539` connects to port 3 | ports above 65535 are refused | not executed | LegacyMonitor.PortWrapsAround | LegacyMonitor.LargePortRefused |
| src/colors.cpp:156 | middle parts of a value pair reuse `f1[1]` instead of `f1[j]` | `a:p:q:d` is shown as `a:p:p:d` | each part is shown as itself | not executed | Colors.MiddlePartRepeated | Colors.ValuePairsPlain |
| src/colors.cpp:80 | the final `left(length-1)` meant to drop a trailing comma also cuts the `>` of a closing font tag | an LWCP reply whose last item has no `=`, such as `set src x`, ends in `</font` | only a trailing comma is dropped | not executed | Colors.LwcpCutsClosingTag | Colors.LwcpKeepsClosingTag |
| src/lwcap/lwcap.cpp:215 | `write(1,data,bytes)!=1` reports a failure unless exactly one byte was written | any full write of a payload longer than one byte is reported as failed | compare with `bytes` | not executed | Lwcap.StdoutCheck | Lwcap.StdoutCheck |
| src/lwcap/lwcap.cpp:226 | the frame count is `bytes/6` whatever the channel count | with `--channels=1`, only half of the repacked samples are written | frames of `channels` samples each | not executed | Lwcap.FramesAsWritten | Lwcap.FramesCorrected |
| src/lwmon/writefromfile.cpp:99-100 | a full 1024-byte read stores the terminator at `data[1024]`, past the buffer | a device reply whose first read returns 1024 bytes | read at most 1023 bytes | not executed | FileWriter.FullReadOverruns | FileWriter.ReadsFit |
| src/lwcast/addaddressdialog.cpp:113-115 | `f0.at(1)` is read without checking that the label split into two parts | OK with the address `239.192.0.1` while the interface box is empty (no interface found) | stay in the dialog, as for the other refusals | not executed | AddAddress.EmptyBoxUndefined | AddAddress.EmptyBoxRefused |
| src/lwmon/writefromfile.cpp:109-111 | a bare `ERROR` reply removes a second element from an empty list | the reply line `ERROR` | refuse the login with an empty message | not executed | FileWriter.BareErrorUndefined | FileWriter.BareErrorRefused |

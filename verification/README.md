# kcaldav: verification of its parsers, codecs and protocols

A Dafny model of the parts of kcaldav that decide what a calendar file means, what a password hash
is, and what concurrent requests may do to the database.  Every module stands for one component of
the program; the methods keep the imperative form of the C and JavaScript code (linked lists with
tail pointers, buffers cut by terminators, contexts with block buffers, circular windows, in-place
loops) and are proved against specification functions, about which the theorems are stated.
`dafny verify dfyconfig.toml` checks everything.

**iCalendar** (`ical.c`; sections 3.1, 3.4 and 3.6 of RFC 5545, sections 3 and 4 of RFC 3629).

- `IcalLines`: unfolding physical lines into logical ones through the reused line buffer, and
  cutting a line into name, parameters and value.  The specification `Unfold` works on suffixes; the
  reference `Logical(PhysicalLines(s))` splits at line ends first and joins continuations after.
- `IcalFold`, `IcalPrint`: folding and printing, with the two tests of the column, into a callback
  that may fail at any octet.
- `Utf8`: well-formedness as the image of an encoder, against the recogniser inside the folder.
- `IcalRoundTrip`: reading back what is printed, octet by octet.
- `IcalModel`: components and time zone rules as a pushdown machine over lines, the reference for
  the recursive descent; closing checks, linking, and the whole parser as a function.
- `IcalFields`, `IcalShape`: what a parsed calendar holds, in the names of RFC 5545: which line decides
  which field, which BEGIN lines make which components and rules, and what has been checked.
- `IcalDuration`, `IcalParser`: the heap side: durations scanned in place, the node list, one list
  of components for each type, recursive descent, and the links to time zones.
- `IcalReparse`: printing a parsed calendar and parsing it again, with the exact condition under
  which nothing changes.
- `IcalEndToEnd`: the same for the heap routines one after the other, with the links to time zones.

**Hashes and codecs** (`compats.c`, `md5.js`; RFC 1321, FIPS 180-4, section 4 of RFC 4648).

- `Word32`: wrap-around and bitwise arithmetic on integers, bit by bit.
- `BlockHash`: what a streaming hash keeps, for any size of block.
- `Rfc1321`, `Md5`, `Md5Js`: RFC 1321; the streaming C implementation; the JavaScript
  implementation on signed numbers; and the agreement of the two on passwords.
- `Fips180`, `Sha2Bits`, `Sha2Constants`, `Sha2`, `Sha512`: FIPS 180-4 with the full message schedule; its
  logical functions bit by bit; where its constants come from; the rolled and the unrolled transform over a window of sixteen words; SHA-512
  streaming with its two-word counter.
- `Base64`: the block encoder and the four-state decoder.

**Database protocols** (`db.c`, `kcaldav.c`).

- `Nonce`: many processes running the two-phase nonce check, statement by statement.
- `Etags`, `EtagTransactions`: conditional and unconditional changes of resources with their etags
  and ctags; first with a transaction as one step, then taken apart into statements under a lock.

**Configuration** (`conf.c`).

- `Conf`: the loop that un-escapes and cuts a line in place, and the splitting into key and value.

Where the code differs from what its comments or the standards say, the model follows the code:

- `ical_duration` writes terminators into the value of the node it reads, so that a calendar with a
  duration does not print as it was read (`IcalReparse.DurationLost`).
- An event that starts at the epoch is refused as one without a start (`IcalShape.OneEvent`), and the
  sign of a duration comes after the P (`IcalFields.SignAfter`).
- A duration without any number is accepted and cut to a value that is refused, so that the printed
  calendar no longer parses (`IcalReparse.DurationRefused`).
- A blank line in front of a continuation makes a name that starts with white space, which does not
  print to itself (`IcalReparse.BlankNameLost`, `IcalReparse.ReadBackExact`).
- Colons and semicolons split a line even in quotes (`IcalRoundTrip.SplitExact`,
  `IcalRoundTrip.QuotedColon`).
- A TZID that is a lone quote makes the copy run on to the end of the parameters, and in no other
  case does it (`IcalModel.TzidRunsOn`, `IcalModel.LoneQuoteRunsOn`).
- The JavaScript MD5 keeps only 32 bits of the length (`Md5Js.PaddingAgrees`, `Md5Js.LongMessage`).
- The decoder of Base64 does not look at spare bits when it has no target (`Base64.SpareExact`,
  `Base64.SpareBitsUnseen`).
- Un-escaping a configuration line leaves copies of the last character behind, which is harmless
  only under a condition (`Conf.RewrittenMeans`, `Conf.UnterminatedWrong`).
- A ctag changes in a statement of its own after a creation or an unconditional removal
  (`Etags.CtagLate`).

## Model

| member | source | states |
|---|---|---|
| `IcalLines.UnfoldsPhysicalLines` | ical.c:991-1048 | For every buffer, the suffix-by-suffix unfolding equals the independent definition: split at line ends, drop the CR of a CRLF, and join to each line the lines after it that start with a space or tab, minus that octet |
| `IcalLines.CrLfSameLines` | ical.c:1010-1048 | A buffer without CR and the same buffer with CRLF line ends have the same logical lines and the same fields |
| `IcalLines.LineReader.Append` | ical.c:105-124 | The buffer grows when needed and ends with exactly the appended octets and a terminator |
| `IcalLines.LineReader.Gather` | ical.c:1005-1048 | The inner loop leaves in the reused buffer the text of one logical line and stops at the octet after it |
| `IcalLines.LineReader.ReadLine` | ical.c:991-1066 | One call strictly advances, stays within the buffer, returns exactly the first logical line cut at its first colon and first semicolon, or refuses it; an empty logical line is refused although the previous line is still in the buffer |
| `IcalLines.CutLine` | ical.c:1050-1065 | The two terminators written into the line leave the name, the parameters (absent or empty, kept apart) and the value as C strings |
| `IcalLines.OneLine` | ical.c:1010-1048 | In octets: a line that ends in 13 and 10, or in 10, is continued by the next exactly if that starts with 9 or 32, which is dropped with the line end |
| `IcalLines.SplitMeans` | ical.c:1050-1065 | In octets: the first 58 ends the name and the parameters, the first 59 before it the name, and a 0 the line |
| `IcalFold.PutsKeepsText` | ical.c:1500-1615 | For any octets, taking the inserted breaks out of a folded string restores it |
| `IcalFold.PutsBounded` | ical.c:1505-1612 | From any column up to 74, every line of a folded string stays within 74 octets and so does the column at its end |
| `IcalFold.DelimBounded` | ical.c:1473-1490 | The delimiter test for equality with 74 keeps the same bound, so that column 74 is never jumped over |
| `IcalPrint.UnitAt` | ical.c:1512-1586 | The tests for two, three and four octets in the folder read no octet past the terminator and take what the pure recogniser takes |
| `IcalPrint.PutString` | ical.c:1500-1615 | The fold loop writes the folded string and leaves the column of the last piece, or stops as the callback fails with a prefix written |
| `IcalPrint.PutDelim` | ical.c:1473-1490 | A delimiter is written, after a break exactly in column 74 |
| `IcalPrint.PrintOne` | ical.c:1621-1655 | One property line with its line end, over name, parameters and value, or a prefix of it when the callback fails |
| `IcalPrint.Print` | ical.c:1621-1667 | Walking the linked list writes the printed form of all its nodes exactly, or the prefix that fitted, and tells which |
| `IcalPrint.FoldedWhen` | ical.c:1473-1655 | A property line is printed unfolded, followed by CRLF, if and only if it has fewer than 74 octets, or 74 and no value |
| `IcalPrint.NodeFilled` | ical.c:1473-1615 | Each line that is broken has at least 70 of its 74 columns filled |
| `Utf8.UnitIsChar` | ical.c:1512-1586 | On any string that starts with an encoded scalar value the recogniser takes exactly that character |
| `Utf8.UnitDecodes` | ical.c:1512-1586 | Whatever the recogniser takes as more than one octet is the encoding of a scalar value: no overlong form and no surrogate |
| `Utf8.PutsWellFormed` | ical.c:1500-1615 | Folding a well-formed string gives physical lines that are each well-formed |
| `IcalRoundTrip.UnfoldRendered` | ical.c:1010-1048 | Unfolding what the folder renders gives back the text |
| `IcalRoundTrip.PrintedLinesGood` | ical.c:1621-1655 | Every physical line printed for readable nodes has at most 74 octets, and is well-formed if the nodes are |
| `IcalRoundTrip.SplitExact` | ical.c:1056-1063 | The text of a node without line feed and NUL splits into that node if and only if the node is readable: no colon in the name or in the parameters, quoted or not, and no semicolon in the name |
| `IcalRoundTrip.QuotedColon` | ical.c:1056-1063 | A concrete line with a colon in a quoted parameter splits inside the quotes |
| `IcalRoundTrip.ReadBack` | ical.c:991-1066 | Reading the printed form of any list of readable nodes, of which no name after the first starts with white space, returns exactly that list, in order, and nothing after it |
| `IcalModel.FindName` | ical.c:1250-1266 | The name after BEGIN selects the first entry of the table that matches ignoring case, or none |
| `IcalModel.TzidRunsOn` | ical.c:435-445 | For all parameters with a TZID that is accepted: the identifier holds a semicolon if and only if the value is a lone quote and another parameter follows, and then it is everything after the quote |
| `IcalModel.LoneQuoteRunsOn` | ical.c:435-445 | Concrete parameters with a lone quote, whose identifier is the semicolon and the parameter after it |
| `IcalModel.FindTzFirst` | ical.c:1350-1366 | The time zone found matches ignoring case and none before it does; if none is found, none matches |
| `IcalModel.RunEnd` | ical.c:1299-1343 | The end of the input succeeds if and only if each of the components and rules still open passes its checks, and changes nothing but what is open |
| `IcalModel.RunSetsTzIds` | ical.c:1332-1338 | After every run that succeeds, each time zone has an identifier |
| `IcalFields.PropertySets` | ical.c:1276-1293 | A line of a component sets the field that its name says, to the reading of its value, and no other field |
| `IcalFields.PropertyTakes` | ical.c:1276-1297 | The lines that are refused, name by name, and no others |
| `IcalFields.TzPropertySets` | ical.c:1164-1177 | The same for the lines of a time zone rule |
| `IcalFields.FieldsDecided` | ical.c:1208-1344 | Every field of every component of a parsed calendar is the reading of the last line of its name read while the component was innermost, or unset; recurrence rules add up |
| `IcalFields.RulesDecided` | ical.c:1116-1201 | The same for every rule of every time zone |
| `IcalFields.TzParamTakes` | ical.c:364-445 | Parameters of a date are taken if and only if every kind of value named is that of the date, and there is at most one TZID, and none for a date in UTC |
| `IcalFields.TzParamReads` | ical.c:418-445 | The identifier is that of the only TZID, without its quotes, unless it is a lone quote |
| `IcalFields.DurationSets` | ical.c:840-880 | A number with the letter W, D, H, M or S sets the weeks, days, hours, minutes or seconds |
| `IcalFields.DurationStops` | ical.c:840-887 | Reading stops at a letter without a number, with a number above 64 bits, or that is no unit, and the value is taken if it ends there |
| `IcalFields.WholeDuration` | ical.c:809-887 | A concrete duration with a sign and every unit is read into its six fields |
| `IcalFields.SignAfter` | ical.c:818-832 | The sign is read after the P and refused before it |
| `IcalShape.TablesMean` | ical.c:1250-1266 | The seven names of components and the two of rules, in any case, and their numbers |
| `IcalShape.ShapeDecided` | ical.c:1208-1344 | The components of a parsed calendar are those that its BEGIN lines name, in order, and the rules of each time zone those begun while it was the time zone begun last |
| `IcalShape.RuleGoesLast` | ical.c:1126-1149 | A rule is added to the last time zone and to nothing else, and is refused if there is none |
| `IcalShape.StepEnds` | ical.c:1268-1343 | An END line closes what is innermost if and only if it names it, fails if its checks are not met, and is otherwise only recorded |
| `IcalShape.StepUnknown` | ical.c:1240-1267 | A BEGIN line with an unknown name, or inside a rule, is only recorded |
| `IcalShape.AllChecked` | ical.c:1299-1343 | Every event of a parsed calendar has an identifier and a start other than the epoch, every time zone an identifier, and every UNTIL fits its start |
| `IcalShape.OneEvent` | ical.c:1324-1334 | For every identifier, start and end: an event of these three lines is refused if it starts at the epoch, and otherwise has exactly these fields |
| `IcalReparse.RereadDuration` | ical.c:809-887 | A value cut by reading its duration can be read again exactly if a digit came before the first unit, reads as zero, and is not cut further |
| `IcalReparse.Rerun` | ical.c:1208-1344 | Running the machine on the lines it recorded gives the same lines and the same components with blank durations, exactly if every duration can be read again |
| `IcalReparse.ReadBackCount` | ical.c:1010-1048 | Reading back the printed form of readable nodes gives exactly one line less for each name after the first that starts with white space |
| `IcalReparse.ReadBackExact` | ical.c:1010-1048 | So the list comes back if and only if there is no such name |
| `IcalReparse.ReparseExact` | ical.c:1400-1457 | For every buffer that parses: printing and parsing again gives the same calendar and reads all of it if and only if no name starts with white space, every duration can be read twice, and all durations are zero; and what comes back, or that nothing does, when only the names are in order |
| `IcalReparse.ReparseSame` | ical.c:1621-1667 | So a calendar without durations and without odd names survives printing and parsing unchanged |
| `IcalEndToEnd.Reparse` | ical.c:1400-1667 | Parsing a buffer into the heap, printing it, and parsing the output into the heap again: whether the second parser succeeds, and that it then has read everything and holds the same lines, components, bits and links to time zones with blank durations; and the exact condition under which durations are the same as well |
| `IcalEndToEnd.LinksMean` | ical.c:1350-1389 | The start and the end of each component point to a time zone whose identifier is that of their own TZID, or to nothing without one |
| `IcalReparse.DurationLost` | ical.c:853-854 | A concrete calendar with a duration of one hour parses, and comes back with the same lines and a duration of no hours |
| `IcalReparse.DurationRefused` | ical.c:853-887 | A concrete calendar with a duration without number parses, but its printed form does not |
| `IcalReparse.BlankNameLost` | ical.c:1040-1048 | A concrete calendar with a blank line before a continuation parses, but does not come back |
| `IcalDuration.ReadDuration` | ical.c:809-887 | The scan in place, which overwrites each unit with a terminator, accepts and reads what the pure definition does, and leaves in the node the value up to the first unit |
| `IcalParser.IcalComp.ReadProperty` | ical.c:1276-1293 | Entering a property changes the component as the pure function says, fails exactly when it does, and changes the node only for a duration |
| `IcalParser.ListedIndices` | ical.c:1225-1236 | The heap list of a type holds exactly the components of that type, in BEGIN order |
| `IcalParser.IcalParse.AllocNode` | ical.c:1073-1108 | Appending behind the tail pointer keeps the list acyclic with the tail as its last element, and adds exactly the new line |
| `IcalParser.IcalParse.AllocComp` | ical.c:1220-1236 | Appending a component keeps all seven lists acyclic and disjoint, the tails last, and each bit set exactly if its list is not empty |
| `IcalParser.IcalParse.CompLine` | ical.c:1240-1297 | One line of an open component, with everything opened by it, leaves exactly what the machine leaves |
| `IcalParser.IcalParse.ParseComp` | ical.c:1208-1344 | The recursive descent into a component leaves exactly the lines, components and position of the machine, and fails exactly when it does |
| `IcalParser.IcalParse.AllocTz` | ical.c:1126-1149 | A rule is added to the time zone begun last, wherever in the nesting it is found; without one it is refused |
| `IcalParser.IcalParse.ParseTz` | ical.c:1116-1201 | The same for a time zone rule, which belongs to the time zone begun last |
| `IcalParser.IcalParse.FindZone` | ical.c:1350-1366 | The search finds the first time zone whose identifier matches ignoring case, and meets none without identifier |
| `IcalParser.IcalParse.PostParse` | ical.c:1374-1389 | Linking succeeds exactly if every date with a time zone finds one anywhere in the file, and then every date points to it |
| `IcalParser.ParseIcal` | ical.c:1400-1457 | The whole parser refines the pure one on every buffer and start position: same success, nodes, component lists, bits, links and lines left over |
| `Word32.SelectBits` | compats.c:1788-1790 | The form of the first auxiliary function with one operation less equals the one of RFC 1321 on words of any width |
| `Word32.RotlOr` | compats.c:1796-1797 | Two shifts joined by OR are the circular shift |
| `Word32.ShiftBits` | compats.c:1796-1797 | Bit by bit: shifts and the circular shift |
| `Md5.StepsAre` | compats.c:1788-1797 | Each MD5STEP, with its sums taken apart, is the operation of RFC 1321 |
| `Md5.AuxBits` | compats.c:1788-1791 | The four auxiliary functions bit by bit, as section 3.4 of RFC 1321 describes them |
| `Md5.LoadLe` | compats.c:1808-1817 | Joining four octets by shifts and OR gives the little-endian word |
| `Md5.MD5Transform` | compats.c:1803-1897 | The sixty-four written-out steps compute one block as section 3.4 of RFC 1321 defines it by index and table |
| `Md5.Md5Ctx.MD5Update` | compats.c:1715-1747 | For any input: the state stays the compression of all full blocks hashed so far, the buffer starts with the octets left over, and the count is 8 times the length modulo 2^64 |
| `Md5.Md5Ctx.MD5Pad` | compats.c:1753-1769 | Padding by two more updates compresses exactly the message padded as sections 3.1 and 3.2 of RFC 1321 say |
| `Md5.PaddedMeans` | compats.c:1753-1769 | The padded message is the shortest whole number of blocks with the message, 0x80, zeros, and 8 times the length modulo 2^64, low-order octet first |
| `Md5.Md5Ctx.MD5Final` | compats.c:1774-1783 | However the message was cut into chunks, the digest is that of RFC 1321 for the whole of it, and the context is wiped |
| `Md5.HashPassword` | kcaldav.passwd.c:187-202 | Five updates and a loop over hex digits store the digest of user, realm and password joined by colons |
| `Md5.HexMeans` | kcaldav.passwd.c:200-202 | Each octet is printed as two lower-case hex digits, the upper four bits first |
| `Md5Js.Add32` | md5.js:174-176 | Masking an exact sum gives the signed word congruent to it |
| `Md5Js.Ff` | md5.js:79-86 | The step of the script on signed numbers is the operation of RFC 1321 on the words they stand for |
| `Md5Js.Md5Cycle` | md5.js:1-77 | The sixty-four steps with signed decimal constants compute the same block |
| `Md5Js.PaddingAgrees` | md5.js:107-118 | The script pads as RFC 1321 does exactly when 8 times the length, modulo 2^64, is below 2^32 |
| `Md5Js.LongMessage` | md5.js:107-118 | For a message of 2^29 octets the two paddings differ |
| `Md5Js.Md51` | md5.js:100-119 | For every string of single octets, of any length that stays exact, the script compresses the blocks of its own padding |
| `Md5Js.Rhex` | md5.js:149-156 | A number prints as the eight hex digits of its word in little-endian order, whatever an arithmetic shift fills in |
| `Md5Js.Md5String` | md5.js:158-166 | The digest of the script is that of RFC 1321 for every message below 2^29 octets |
| `Md5Js.SevenBit` | home.js:132 | The octets of the script and the UTF-8 of a terminal are the same exactly for 7-bit text |
| `Md5Js.BrowserAndServer` | kcaldav.passwd.c:187-202 | For every user and password of 7-bit characters, below 2^29 octets in all, the hash the browser sends is the one the command line stores |
| `Sha2.LoadBe` | compats.c:2934-2944 | Joining four or eight octets by shifts and OR gives the big-endian word |
| `Sha2Bits.Sha512Bits` | compats.c:3002-3005 | Bit by bit, with the numbers of section 4.1.3 of FIPS 180-4: the two upper-case and the two lower-case sigma functions of SHA-512 |
| `Sha2Bits.Sha256Bits` | compats.c:2996-2999 | The same for SHA-256, with the numbers of section 4.1.2 |
| `Sha2Bits.ChooseBits` | compats.c:2992-2993 | Bit by bit: Ch takes a bit of the second or of the third word, as the first chooses, and Maj the bit that two of the three have |
| `Sha2Bits.RoundMeans` | compats.c:3123-3142 | A round with one reduction for each sum: the new first word is the sum of seven terms, the new fifth one of six, and the others move down |
| `Sha2Bits.ScheduleMeans` | compats.c:3238-3248 | The schedule is the message and then sums of the words 2, 7, 15 and 16 before |
| `Sha2Bits.BlockMeans` | compats.c:3187-3198 | The state is added to what the rounds leave, word by word |
| `Sha2.WindowNext` | compats.c:3238-3248 | The words at offsets 1, 9, 14 and 0 of the circular window make the next word of the full schedule |
| `Sha2.WindowPut` | compats.c:3238-3248 | Writing it over the oldest word leaves the window holding the last sixteen words of the schedule |
| `Sha2.TransformRolled` | compats.c:3202-3273 | The rolled transform of SHA-256 and SHA-512 is the one of sections 6.2.2 and 6.4.2 of FIPS 180-4 for every state and block |
| `Sha2.Step` | compats.c:3123-3142 | The unrolled round changes two registers and leaves the others to be renamed, and is one round of FIPS 180-4 |
| `Sha2.TransformUnrolled` | compats.c:3144-3198 | The transform unrolled eight times is the same function, so that the two forms agree |
| `Sha2Constants.PrimesAre` | compats.c:3042-3083 | The table of primes that the proof goes through lists the primes up to its last entry, in order and without gaps |
| `Sha2Constants.ConstantsAre` | compats.c:3010-3095 | All round constants and initial values of SHA-512 are the first 64 bits of the fractions of the cube and square roots of the prime whose rank is their index, and those of SHA-256 the first 32 bits |
| `Sha512.Carry` | compats.c:2968-2973 | A carry shows as a sum below the summand, and the two words together are the sum modulo 2^128 |
| `Sha512.Sha512Ctx.Update` | compats.c:3553-3597 | For any chunking, the two-word counter is 8 times the length modulo 2^128, the state is the compression of all full blocks, and the buffer starts with the octets left over |
| `Sha512.Sha512Ctx.Pad` | compats.c:3599-3640 | In every case of the buffer, what is compressed is the message padded as section 5.1.2 of FIPS 180-4 says |
| `Sha512.PaddedMeans` | compats.c:3599-3640 | The padded message is the shortest whole number of blocks with the message, 0x80, zeros, and 8 times the length as a number of 128 bits |
| `Sha512.Sha512Ctx.Final` | compats.c:3642-3657 | The digest is that of FIPS 180-4 for the concatenation of all input, and the context is wiped |
| `Sha512.DigestMeans` | compats.c:3642-3657 | Each eight octets of the digest are a word of the state, high-order octet first |
| `Sha512.VariantIs` | compats.c:3002-3095 | Width, rounds, constants and initial values of the two variants |
| `Base64.EncodeLength` | compats.c:294-346 | An encoding has four characters for each three octets begun |
| `Base64.AlphabetIs` | compats.c:226-228 | The sixty-four characters in their order, and the pad |
| `Base64.EncodeExamples` | compats.c:294-346 | Three of the examples of section 10 of RFC 4648, and one with the last two characters |
| `Base64.Bijection` | compats.c:354-478 | A text decodes strictly to some octets exactly if it is their encoding; so non-zero spare bits are refused |
| `Base64.SpareExact` | compats.c:445-478 | For every text: strict decoding refuses it if the last character before the pad has bits set that no octet takes, and otherwise gives what decoding without a target gives |
| `Base64.Ntop` | compats.c:294-346 | The encoder leaves the encoding and its terminator, or fails exactly if both together do not fit |
| `Base64.Pton` | compats.c:354-478 | For every text, white space and target: the decoder returns the length of what the text stands for and stores it, or -1 exactly if the text is wrong or does not fit; without a target it only counts |
| `Base64.PtonOfNtop` | compats.c:294-478 | What the encoder leaves in its target decodes to the original octets, whatever follows the terminator |
| `Base64.SpareBitsUnseen` | compats.c:460-464 | Without a target, a concrete text with non-zero spare bits is counted as if it were right |
| `Nonce.NoReplay` | db.c:694-843 | In every interleaving: the counts accepted for a row strictly increase, a row holds one more than the last of them or zero, the table never exceeds 1000 rows, and a process answers 1 exactly if its request is one accepted |
| `Nonce.NonceOnce` | db.c:694-843 | As a client sees it: in every run in which no nonce is issued twice, the counts accepted for a nonce strictly increase, so that each pair of nonce and count is accepted at most once, across culls and deletions |
| `Nonce.IssuedOnce` | db.c:767-843 | No nonce is issued twice as long as each one inserted differs from all issued before |
| `Nonce.ReissuedTwice` | db.c:671-843 | A concrete run in which a nonce is deleted, issued again, and accepted again with the same count |
| `Nonce.ReplayMeans` | db.c:694-725 | In every reachable state a known nonce is refused exactly for a negative count or one not above a count already accepted |
| `Nonce.RequestMeans` | kcaldav.c:86-110 | The first check in every reachable state: a replay is answered -1 at once, an unknown nonce makes the process want a new one, a fresh request goes on, and nothing is stored |
| `Nonce.AgainMeans` | db.c:731-765 | The second check, inside the transaction, with the same answers; unless the request is still fresh, the transaction ends and nothing is stored |
| `Nonce.WriteMeans` | db.c:731-843 | What each later statement writes: one more than the count for the row of the nonce; twenty rows removed if there are 1000, and none if there are fewer; and one new row with count 0 |
| `Nonce.CommitMeans` | db.c:731-843 | A commit makes exactly that the table, and is answered 1 for an update and 0 for a new nonce |
| `Nonce.ZeroMeans` | kcaldav.c:86-136 | In every run a process is answered 0 exactly if it has issued a nonce, issues one at most, and only if its own was not found |
| `Nonce.StepKeeps` | kcaldav.c:86-136 | Every step of the two-phase check, of creation with its cull, and of deletion keeps the invariant behind this, wherever the other processes are |
| `Nonce.UpdateKeeps` | db.c:731-765 | An update inside its transaction stores one more than a count that is above all accepted ones |
| `Etags.NoLostUpdate` | db.c:1489-1539 | In every run an etag is used up by at most one effective conditional request, what was replaced is what was written under that etag in that place, and the etag never comes back |
| `Etags.UpdateMeans` | db.c:1623-1678 | A conditional update takes effect exactly if the resource still has the etag presented, and then changes nothing else in the collection |
| `Etags.KeptUnlessTaken` | db.c:1489-1678 | In every reachable state, a step ends a resource as it is only if it is a conditional request that presents its etag, its unconditional removal, or the removal of its collection; so a creation never overwrites |
| `Etags.StepMeans` | db.c:1489-1678 | What each request does to the resources of every collection |
| `Etags.StepCollections` | db.c:1382-1487 | What each request does to the collections, their properties and their ctags |
| `Etags.StepOwes` | db.c:1578-1614 | Which requests leave a ctag to be changed by a second statement, and that it is changed once for each |
| `Etags.CtagMonotone` | db.c:646-664 | The ctag of a collection never decreases |
| `Etags.CtagExact` | db.c:1382-1408 | In any two states of a run, the ctag together with the changes still to come is the same if and only if no statement wrote to the collection in between, and then resources, etags and properties are the same |
| `Etags.CtagSound` | db.c:1382-1408 | So in two states in which no process is between its statements for a collection, equal ctags mean equal resources and properties |
| `Etags.CtagLate` | db.c:1578-1614 | Between the two statements of a creation the ctag is equal and the resources are not |
| `EtagTransactions.TransactionIsStep` | db.c:1623-1678 | Lookup, write and ctag change of a transaction together are the one step that the theorems are about |
| `EtagTransactions.WhoMayWrite` | db.c:513-532 | Conditional requests are transactions, all others one statement, and none of them starts while a transaction holds the lock; nothing is visible before the commit |
| `EtagTransactions.StatementsAreSteps` | db.c:513-532 | Every run of statements under the write lock, with rollbacks anywhere, commits exactly what a run of those steps does |
| `Conf.RewrittenMeans` | conf.c:118-149 | The rewriting in place is right if and only if a comment cuts the line, or it ends with a hash or white space, or it has no escape |
| `Conf.TerminatedRight` | conf.c:118-149 | So it is right for every line that ends with a line feed |
| `Conf.UnescapeMeans` | conf.c:118-149 | In octets, for every line: the first 35 ends the text unless a 92 comes before it; then both become one 35, and the rest follows |
| `Conf.PlainLines` | conf.c:118-149 | A line without 35 is only trimmed, and one whose first 35 has no 92 before it is what comes before that, trimmed |
| `Conf.TwoLines` | conf.c:118-149 | Concrete lines with a comment and with an escaped hash |
| `Conf.UnterminatedWrong` | conf.c:139 | A concrete line without line feed is rewritten wrongly |
| `Conf.RewriteLine` | conf.c:118-149 | The loop terminates and leaves exactly that rewriting, terminated, although the shift moves neither the terminator nor the end |
| `Conf.ParseKeyVal` | conf.c:42-69 | The splitting in place leaves the trimmed key and value as C strings, and tells a missing key and an empty value apart |
| `Conf.KeyValMeans` | conf.c:42-69 | A key and a value around the first 61, with white space before and between them, are read as the key and the value |
| `Conf.NoKey` | conf.c:42-69 | Without 61, or with nothing but white space before it, there is no key |

## Left out

- The values of dates, UTC offsets and recurrence rules: their grammars decide acceptance and a stored value only, and are arbitrary functions in `IcalModel.Leaf`, with the C library's conversions inside them.
- Error messages, the line counter and file names of the parser; memory exhaustion; logging.
- Freeing of parsed calendars, and the iCalendar accessors used by the rest of the server.
- The bits of a calendar are a set of types, and the value fields of a component are one record that is replaced as a whole; the lists, tail pointers and time zone links are real references.
- The line buffer of the reader is a sequence with a capacity, not an array of octets; a terminator written into it is an update of that sequence.
- The output callback is modelled by how many octets it still takes.
- The locale: `isspace`, `tolower` and `isdigit` are those of the C locale.
- `strtoul` is exact with overflow refused; a stale `errno` is ignored.
- Sha512.Sha512Ctx.Update: for SHA-512 only; the streaming functions of SHA-256 have one counter word and the same shape, and SHA-384 only other initial values.
- Sha2.TransformRolled: sums of several words are taken modulo the word size at the end of an expression, as unsigned arithmetic of C is.
- Md5Js.Md51: for strings whose characters are single octets, as the script supports no others, and lengths whose eightfold is exact in a double; the fallback definition of `add32` for old browsers is not modelled.
- Rows of the nonce table are culled in an arbitrary choice of twenty, as the query has no order; random nonces and etags are arbitrary, and new etags are taken to be different from all before; what a repeated nonce does is `Nonce.ReissuedTwice`.
- Commits are taken to succeed, counts stay below the largest 64-bit number, and busy retries and crashes inside a statement are not modelled; a process may stop or fail between any two statements.
- Conf.RewriteLine: for lines without NUL; what the keys of the file mean, and reading the file.
- HTTP, XML and CalDAV request handling (`caldav.c`, `propfind.c`, `proppatch.c`, `property.c`, `put.c`, `get.c`, `delete.c`, `dynamic.c`, `options.c`, `util.c`): short branches around library callbacks that are not part of this model.
- `datetime.c`, which is not built, and the remaining compatibility functions, which are system calls or easy members.

# IEC 61850 adapters: a Dafny model

This project models the adapters' own logic and proves properties of it:

- the MMS server and client of `adapters/iec61850-rust`: BER, names and alternate access, variables in a
  typed value tree, named variable lists, paged name lists and file sessions (`Ber`, `BerIntegers`,
  `MmsTypes`, `MmsRequests`, `VariableAccess`, `VariableNames`, `MmsServer`, `ListSessions`,
  `NameListPaging`, `FileSessions`, `FileTransfer`), with parts of the Go server beside it (`GoServer`);
- the time and value codecs: calendar, timestamps, GeneralizedTime, UtcTime, BinaryTime, bit and hex text,
  typed JSON, seqData (`Calendar`, `TimeFormat`, `GeneralizedTime`, `WireTime`, `BitText`, `TypedJson`,
  `SeqData`);
- the layer-2 streams: Sampled Values loss accounting in Rust, Go and C with the C publisher
  (`SvCounter`), the GOOSE retransmission schedule and its supervision in C and Go (`GoosePublisher`,
  `GooseSupervision`).

`dafny verify dfyconfig.toml` checks everything.

## How it is modelled

Octets are integers below 256, strings are their octets, 32- and 64-bit arithmetic is written out with
`U32`, `U64` and `I64`. Loops and objects of the source are methods and classes proved equal to functions,
and the theorems are lemmas about those functions; where a run matters the lemmas quantify over all
sequences of requests, frames, polls, callbacks or store changes. Clocks, delivery, the choice of the other
associations' requests, float conversion and float printing are parameters: nothing is assumed of them but
what a lemma's `requires` says.

A property that does not hold of the code for every input is stated with the exact condition under which
it does:

| property | holds exactly when |
|---|---|
| a TLV is read back | its content is below 2^32 octets (`Ber.EncodeRead`) |
| an unsigned number is read back as signed | it is below 2^63 (`BerIntegers.UintReadAsInt`) |
| a date comes back from its day number | it is a date of the calendar (`Calendar.CivilRoundTripExact`) |
| a printed time is parsed back | its year has four digits (`TimeFormat.ParseOfFormat`, `GeneralizedTime.GenRoundTripExact`) |
| UtcTime and BinaryTime give milliseconds back | they are within the range of the octets, and for the truncating reader a multiple of 125 (`WireTime.UtcRoundTripExact`, `WireTime.BinaryRoundTrip`) |
| hex text survives | it is lower-case (`BitText.HexRoundTripExact`) |
| typed JSON survives | it is canonical (`TypedJson.RoundTripExact`) |
| days_from_civil stays within its machine words | the date is not day 0 of March and its day number fits them (`Calendar.TrapsExactly`) |
| a build that wraps computes the day number | it fits an i64 (`Calendar.WrappedIsExact`) |
| an advance is counted without error | it is below the wrap and does not pass it, or falls back by more than half of it (`SvCounter.StepConserves`) |
| received + lost - duplicates is what was sent, over a trace | every advance that is no repeat is counted without error (`SvCounter.LossConservedExactly`) |
| a late sample counts as out of order | it is at most half the wrap back and the numbers between do not pass it (`SvCounter.LateSampleExactly`) |
| an undisturbed stream is clean | the wrap is at least 3 (`SvCounter.CleanExactly`) |
| the three counters agree on a step, or end equal after a run | no step wraps, or the wrap exceeds the reference where one does (`SvCounter.StepAgreement`, `SvCounter.RunsAgreeExactly`) |
| the GOOSE schedule increases | no doubling that another follows reaches 2^31 (`GoosePublisher.ScheduleIncreases`) |
| timeAllowedToLive is twice the interval | the effective MaxTime is below 2^31 (`GoosePublisher.TalTwiceExactly`) |
| listed variable names resolve, each once | component names differ in each structure and no name holds a `$` (`VariableNames.UsableExactly`) |
| a paged browse completes at every PDU size | all names but the last are different (`NameListPaging.BrowsableExactly`) |
| renaming a file and back restores the store | the new name was free or the same (`FileSessions.RenameBackExactly`) |
| GOOSE frames raise no timeout, however the polls fall | each arrives in time for a supervised one before it (`GooseSupervision.QuietExactly`) |
| a component is reached by a flattened name | no name on the way holds a `$` (`VariableAccess.DollarNeedsAlternate`) |
| the two servers resolve a member with UTF-8 names to the same target | it selects one element or a whole, in a domain with a name, or neither resolves it (`GoServer.ResolveTwins`) |
| the two servers give the same outcomes to a list of writes | they resolve every member alike, error codes included (`GoServer.WritesTwins`) |
| the two servers accept a definition with UTF-8 names alike | the name is not free, or some member does not resolve, or every member selects one element or a whole in a domain with a name (`GoServer.DefineTwins`) |
| the two servers answer a definition with UTF-8 names alike | on a free name the same; on one that is not free, every member resolves (`GoServer.DefineTwins`) |
| the two servers accept a second list of another name, not UTF-8, alike | replacing the octets that are not UTF-8 keeps the names apart (`GoServer.ReplacedNames`) |

Where documentation and code part, the model follows the code. `docs/sv.md` adds
`(wrap - 1 - previous) + smpCnt` on a wrap; when the reference is not below a configured wrap the three
subscribers compute that differently (`SvCounter.SmallWrapDiffers`). `docs/goose.md` has timeAllowedToLive at
twice the interval, which holds exactly for a MaxTime below 2^31 (`GoosePublisher.TalTwiceExactly`); at 2^31 it
is 0, which means unsupervised (`GoosePublisher.MaxTimeWraps`).

## Model

| member | source | states |
|---|---|---|
| Ber.ReadTlv | adapters/iec61850-rust/src/ber.rs:48-91 | the reading loop returns what the recursive definition of a TLV reads: high tag numbers in base 128 of at most five octets, long lengths, and None on truncated, indefinite or oversized input |
| Ber.WriteTag | adapters/iec61850-rust/src/ber.rs:158-174 | the tag loop produces the base-128 digits of the number, most significant first |
| Ber.TagRead | adapters/iec61850-rust/src/ber.rs:49-66 | a tag written for any class, form and u32 number, followed by anything, is read back, consuming exactly its octets |
| Ber.PutLenRead | adapters/iec61850-rust/src/ber.rs:176-186 | a length of any size is read back modulo 2^32; a length that is a positive multiple of 2^32 is refused |
| Ber.EncodeRead | adapters/iec61850-rust/src/ber.rs:48-91 | read of an encoded TLV followed by anything returns class, form, number and content and consumes exactly the encoding if and only if the content is below 2^32 octets |
| Ber.Reader.NextTlv | adapters/iec61850-rust/src/ber.rs:121-139 | one step of the reader: the next TLV and the position after it, or bad set for good on malformed input |
| Ber.Reader.OptCtxTlv | adapters/iec61850-rust/src/ber.rs:112-118 | consumes the next TLV exactly when it has the asked context tag, and otherwise leaves the reader as it was |
| Ber.ChildrenOfConcat | adapters/iec61850-rust/src/ber.rs:93-139 | a reader over concatenated TLVs yields exactly those TLVs and ends with bad = false |
| Ber.ConcatOfChildren | adapters/iec61850-rust/src/ber.rs:93-139 | the TLVs read from any octets concatenate to a prefix of them, and to all of them if and only if the reader ends with bad = false |
| Ber.EncodeShortest | adapters/iec61850-rust/src/ber.rs:158-186 | of all octets that read as the same TLV, those written are the fewest |
| Ber.LengthForms | adapters/iec61850-rust/src/ber.rs:69-86 | the length octets that are read: one below 128, or one to four after their count; the indefinite form, more, and fewer than said are not |
| Ber.HighTagForms | adapters/iec61850-rust/src/ber.rs:54-68 | a high tag number is the number of its base-128 octets modulo 2^32, of at most five; a longer one is not read |
| Ber.BoolMeaning | adapters/iec61850-rust/src/ber.rs:40-42 | a boolean is true if and only if its first content octet is not 0 |
| Ber.KnownHeaders | adapters/iec61850-rust/src/ber.rs:357-366 | the literal identifier octets of services 77 and 73 that the source's tests pin, and the length octets of 127 and 300 |
| BerIntegers.ParseIntLoop | adapters/iec61850-rust/src/ber.rs:144-154 | the shifting loop over i64 equals the fold used in the theorems |
| BerIntegers.IntBytesLoop | adapters/iec61850-rust/src/ber.rs:213-220 | the stripping loop equals the recursive definition |
| BerIntegers.ParseUintValue | adapters/iec61850-rust/src/ber.rs:140-142 | parse_uint of any content is its big-endian number modulo 2^64 |
| BerIntegers.ParseIntValue | adapters/iec61850-rust/src/ber.rs:144-154 | parse_int of any content is its two's-complement number reduced to 64 bits |
| BerIntegers.IntRoundTrip | adapters/iec61850-rust/src/ber.rs:144-220 | parse_int(int_bytes(v)) = v for every i64 |
| BerIntegers.IntBytesShortest | adapters/iec61850-rust/src/ber.rs:213-220 | no shorter content denotes the same number (section 8.3.2 of ITU-T X.690) |
| BerIntegers.IrredundantNeedsAll | adapters/iec61850-rust/src/ber.rs:213-220 | content without a redundant leading octet denotes a number that does not fit in one octet less |
| BerIntegers.UintRoundTrip | adapters/iec61850-rust/src/ber.rs:140-233 | parse_uint(uint_bytes(v)) = v for every u64 |
| BerIntegers.UintBytesShortest | adapters/iec61850-rust/src/ber.rs:222-233 | no shorter content denotes the same number to a reader of a signed INTEGER, leading 0 included |
| BerIntegers.UintReadAsInt | adapters/iec61850-rust/src/ber.rs:144-233 | parse_int(uint_bytes(v)) is v as i64, so it equals v if and only if v < 2^63 |
| Calendar.DaysFromCivilIsDayCount | adapters/iec61850-rust/src/timefmt.rs:21-29 | days_from_civil of every Gregorian date is the sum of the year and month lengths since 1970 |
| Calendar.CivilOfDays | adapters/iec61850-rust/src/timefmt.rs:7-18 | every day number gives a valid date whose day count, and days_from_civil, is that number |
| Calendar.DaysOfCivil | adapters/iec61850-rust/src/timefmt.rs:7-29 | civil_from_days(days_from_civil(d)) = d for every valid date |
| Calendar.CivilRoundTripExact | adapters/iec61850-rust/src/timefmt.rs:7-29 | exactly the valid dates come back from their day number |
| Calendar.DayCountInjective | adapters/iec61850-rust/src/timefmt.rs:7-29 | different dates have different day counts |
| Calendar.TrapsExactly | adapters/iec61850-rust/src/timefmt.rs:21-29 | for all 64-bit years and 32-bit months and days, days_from_civil leaves a machine word if and only if the date is day 0 of March or its day number, or that of the start of its 400 years, does not fit an i64 |
| Calendar.WrappedIsExact | adapters/iec61850-rust/src/timefmt.rs:21-29 | for the same dates, 64-bit arithmetic that wraps computes the day number if and only if that fits an i64, day 0 of March included |
| TimeFormat.ParseMsLoop | adapters/iec61850-rust/src/timefmt.rs:53-94 | the scanning loops of parse_ms (nine fraction digits at most, scaled and rounded) compute the value of the definition used in the theorems |
| TimeFormat.FormatOfParse | adapters/iec61850-rust/src/timefmt.rs:31-94 | every timestamp in the millisecond layout prints back as it was read |
| TimeFormat.ParseOfFormat | adapters/iec61850-rust/src/timefmt.rs:47-94 | parse_ms(format_ms(ms)) = ms if and only if the year is 0 to 9999 |
| TimeFormat.AcceptedExactly | adapters/iec61850-rust/src/timefmt.rs:53-94 | parse_ms reads exactly the texts of the layout, with a point and any number of digits before the Z or without, whatever the numbers in it |
| TimeFormat.ReadMeaning | adapters/iec61850-rust/src/timefmt.rs:53-94 | such a text denotes its fields and the millisecond nearest to its fraction, upward in the middle, of which nine digits count |
| TimeFormat.ParseTrapsExactly | adapters/iec61850-rust/src/timefmt.rs:53-94 | of the texts parse_ms accepts, exactly those of month 03 and day 00 leave a machine word on the way, and a wrapping build reads the same days |
| TimeFormat.StampOfMs | adapters/iec61850-rust/src/timefmt.rs:32-50 | the fields printed for any millisecond are a valid date and time that denote that millisecond |
| TimeFormat.SignedPad | adapters/iec61850-rust/src/timefmt.rs:32-50 | a negative year is printed with its sign as one of the characters and zeros after it |
| TimeFormat.StampOfStampMs | adapters/iec61850-rust/src/timefmt.rs:32-94 | the fields of the number of a valid date and time are that date and time |
| GeneralizedTime.MilliLoop | adapters/iec61850-rust/src/ber.rs:327-335 | cutting and zero-filling the fraction gives the milliseconds used in the theorems |
| GeneralizedTime.GenRoundTripExact | adapters/iec61850-rust/src/ber.rs:300-339 | parse_gen_time(gen_time(ms)) = ms if and only if the year is 0 to 9999; before that the text is refused, and after it refused or read as another time |
| GeneralizedTime.GenAccepted | adapters/iec61850-rust/src/ber.rs:318-339 | exactly the texts that begin with fourteen digits are read, and denote those fields; a point or comma begins a fraction |
| GeneralizedTime.MilliMeaning | adapters/iec61850-rust/src/ber.rs:327-335 | three digits of a fraction count, and fewer stand for as many of a second as they do in decimal |
| GeneralizedTime.GenTrapsExactly | adapters/iec61850-rust/src/ber.rs:318-325 | the same for the dates parse_gen_time passes on |
| GeneralizedTime.GenTimeShort | adapters/iec61850-rust/src/ber.rs:300-315 | the text of every i64 time fits the length octets of the TLV it is put in |
| WireTime.FractionBack | adapters/iec61850-rust/src/timefmt.rs:96-132 | for each millisecond of a second the 24-bit fraction rounds back to it, and truncates back exactly at multiples of 125 and to one less otherwise |
| WireTime.UtcLayout | adapters/iec61850-rust/src/timefmt.rs:96-104 | the octets hold the seconds modulo 2^32, the largest 24-bit fraction not above the milliseconds, and quality 10 |
| WireTime.UtcRoundTrip | adapters/iec61850-rust/src/timefmt.rs:96-132 | for every i64 millisecond the rounded reading is ms modulo 2^32 seconds and the truncated one that, less one unless 125 divides ms |
| WireTime.UtcRoundTripExact | adapters/iec61850-rust/src/timefmt.rs:96-132 | the rounded reading gives ms back if and only if 0 <= ms < 1000 * 2^32, the truncated one if and only if, besides, 125 divides ms |
| WireTime.UtcNearest | adapters/iec61850-rust/src/timefmt.rs:114-132 | for any octets the rounding reader gives the nearest millisecond to the fraction, upward in the middle, and the truncating one the millisecond it lies in |
| WireTime.BinaryLayout | adapters/iec61850-rust/src/timefmt.rs:147-155 | the octets hold the milliseconds of the day and the days since 1984 modulo 65536 |
| WireTime.BinaryRoundTrip | adapters/iec61850-rust/src/timefmt.rs:144-165 | BinaryTime gives ms back modulo 65536 days, so exactly within the 65536 days from 1984 |
| WireTime.BinaryMeaning | adapters/iec61850-rust/src/timefmt.rs:144-165 | the epoch is 1 January 1984; four octets are a time of that day, six besides the days since, fewer are 1970 |
| BitText.BitsValueLoop | adapters/iec61850-rust/src/typed.rs:17-30 | setting bits in the buffer one by one fills the octets from the most significant bit, and gives None on a character other than 0 and 1 |
| BitText.BitsRoundTrip | adapters/iec61850-rust/src/typed.rs:11-30 | bits_string(bits_value(s)) = s for binary text of every length |
| BitText.HexTextIsLower | adapters/iec61850-rust/src/typed.rs:32-34 | hex prints lower-case digits only |
| BitText.UnhexOfHex | adapters/iec61850-rust/src/typed.rs:32-41 | unhex(hex(b)) = b for all octets |
| BitText.HexRoundTripExact | adapters/iec61850-rust/src/typed.rs:32-41 | hex(unhex(s)) = s if and only if s is lower-case hex; upper case and the plus sign that from_str_radix takes do not survive |
| BitText.HexPairExactly | adapters/iec61850-rust/src/typed.rs:36-41 | two characters are an octet if and only if they are its hex digits of either case, or a plus sign and one digit |
| BitText.UnhexExactly | adapters/iec61850-rust/src/typed.rs:36-41 | text is read as octets if and only if it is two such characters for each |
| BitText.QualityWordLoop | adapters/iec61850-rust/src/sv.rs:56-70 | the bit loop computes the word whose bit i is character i, and refuses other characters and more than 32 of them |
| BitText.QualityWordOfBits | adapters/iec61850-rust/src/sv.rs:56-75 | quality_word(quality_bits(w)) = w mod 2^13 |
| BitText.LowBitsOfWord | adapters/iec61850-rust/src/sv.rs:56-75 | quality_bits of a parsed text is the text cut or zero-filled to 13 characters |
| TypedJson.RoundTrip | adapters/iec61850-rust/src/typed.rs:43-115 | every canonical float-free typed value, of any nesting, is read and prints back as itself |
| TypedJson.OnlyCanonical | adapters/iec61850-rust/src/typed.rs:43-115 | a float-free value that prints back as it was read was canonical |
| TypedJson.RoundTripExact | adapters/iec61850-rust/src/typed.rs:43-115 | the round trip holds if and only if the JSON is canonical: known type names, lower-case hex, binary digits, integers in range and timestamps the octets hold |
| TypedJson.ReadByTypeText | adapters/iec61850-rust/src/typed.rs:44-85 | the text of each of the thirteen types, and that the value is read as that type |
| TypedJson.TakenExactly | adapters/iec61850-rust/src/typed.rs:44-85 | JSON that is not of the form its type takes is refused as such, with the type; other JSON gives a value of the type |
| TypedJson.TakenValues | adapters/iec61850-rust/src/typed.rs:44-85 | booleans, numbers, strings and floats are taken as they are |
| TypedJson.FirstRefusal | adapters/iec61850-rust/src/typed.rs:44-92 | the items of arrays and structures are read in order, up to the first that is refused |
| TypedJson.Untyped | adapters/iec61850-rust/src/typed.rs:44-52 | JSON that is no object, or has no type text or no value, is not typed; another type text is unsupported |
| TypedJson.LookupFirst | adapters/iec61850-rust/src/typed.rs:44-52 | the type and the value are the first fields of those keys, whatever the order and the other fields |
| TypedJson.OddUtc | adapters/iec61850-rust/src/typed.rs:99-115 | a UtcTime that is not eight octets prints as eight zeros do, which are the beginning of 1970 |
| SeqData.EncodeSeqLoop | adapters/iec61850-rust/src/sv.rs:103-109 | encoding value by value yields the concatenation, and None at the first value without an encoding |
| SeqData.DecodeSeqLoop | adapters/iec61850-rust/src/sv.rs:113-141 | decoding with a running position yields each member from its own octets, and None unless the length is the sum of the sizes |
| SeqData.MemberRoundTrip | adapters/iec61850-rust/src/sv.rs:45-141 | one member: the encoding has the member's size and decodes to the same value |
| SeqData.SeqRoundTrip | adapters/iec61850-rust/src/sv.rs:47-141 | for all lists of values matching a list of members, the encoding has the total size and decodes to the same values, each quality in its low 13 bits |
| SeqData.EncodableExactly | adapters/iec61850-rust/src/sv.rs:78-101 | a value has an encoding if and only if it is an integer of 32 bits, a float, a boolean, a time or a bit string of at most 32 bits |
| SeqData.SeqEncodable | adapters/iec61850-rust/src/sv.rs:103-109 | a list is encoded if and only if each of its values is |
| SeqData.DecodableExactly | adapters/iec61850-rust/src/sv.rs:113-141 | octets are decoded if and only if there are as many as the members need; any octet but 0 is true |
| SvCounter.RustStream.CountAsdu | adapters/iec61850-rust/src/bin/sv_subscriber.rs:51-79 | the new reference, largest count and totals of one ASDU are those of the common counting specification |
| SvCounter.GoStats.CountAsdu | adapters/dscsystems/cmd/dscsystems-sv-subscriber/main.go:99-131 | the same for the Go counter, whose missing count is cast to uint64 |
| SvCounter.CStream.CountAsdu | adapters/libiec61850/src/sv_subscriber.c:132-159 | the same for the C counter, whose missing count is 32-bit |
| SvCounter.FirstAndRepeated | adapters/iec61850-rust/src/bin/sv_subscriber.rs:51-79 | in all three languages, a first sample is only received, and one with the number of the reference is a duplicate and nothing else |
| SvCounter.LossOfStep | adapters/iec61850-rust/src/bin/sv_subscriber.rs:60-78 | any other sample is out of order or an advance, and what it adds to lost in each language, in plain numbers |
| SvCounter.LearnedAsConfigured | adapters/iec61850-rust/src/bin/sv_subscriber.rs:61-61 | a wrap that is not configured counts as the largest number seen plus one |
| SvCounter.LargestSeen | adapters/iec61850-rust/src/bin/sv_subscriber.rs:53-53 | over any run the largest number seen is one that came, and none is larger |
| SvCounter.StepAgreement | adapters/iec61850-rust/src/bin/sv_subscriber.rs:51-79 | from equal states, C and Rust agree on a step if and only if it does not wrap or the wrap exceeds the reference; Go and Rust if and only if it does not wrap or the missing count is not negative |
| SvCounter.CountersAgree | adapters/libiec61850/src/sv_subscriber.c:132-159 | fed the same smpCnt sequence from fresh, the three counters are equal after every step when the wrap is learned or exceeds every smpCnt |
| SvCounter.RunsAgreeExactly | adapters/libiec61850/src/sv_subscriber.c:132-159 | over any run of 16-bit counts C ends as Rust does if and only if no step wraps past a reference that the wrap does not exceed, and Go if and only if no missing count is negative; a difference is never made good |
| SvCounter.SmallWrapDiffers | adapters/libiec61850/src/sv_subscriber.c:147-157 | a configured wrap of 10 with counts 20 and 12 makes C count 2^32 + 1 lost samples where Rust counts one |
| SvCounter.StepConserves | adapters/iec61850-rust/src/bin/sv_subscriber.rs:63-78 | an advance by k samples is received with exactly k - 1 lost if and only if k is below the wrap and it either does not pass the wrap or falls back by more than half of it |
| SvCounter.LossConserved | adapters/iec61850-rust/src/bin/sv_subscriber.rs:51-79 | over every trace of such advances and repeats, received + lost - duplicates = last index - first index + 1, the duplicates are the repeats and nothing is out of order |
| SvCounter.LossConservedExactly | adapters/iec61850-rust/src/bin/sv_subscriber.rs:51-79 | over every in-order trace, repeats included, this conservation holds if and only if every advance is of that kind |
| SvCounter.ShortAdvances | adapters/iec61850-rust/src/bin/sv_subscriber.rs:63-78 | advances k with 2k below the wrap are always of that kind |
| SvCounter.LateSampleExactly | adapters/iec61850-rust/src/bin/sv_subscriber.rs:63-78 | a sample k before the reference is counted out of order, the reference staying, if and only if k is at most half the wrap and the numbers between do not pass it |
| SvCounter.Publisher.SendFrame | adapters/libiec61850/src/sv_publisher.c:177-199 | a frame of n ASDUs carries the next n sample numbers modulo the wrap, and is announced for the reason the source gives |
| SvCounter.FrameContinues | adapters/libiec61850/src/sv_publisher.c:177-199 | frames continue one sequence of numbers modulo the wrap, whatever the number of ASDUs |
| SvCounter.PublishedRun | adapters/libiec61850/src/sv_publisher.c:181-186 | fed the published numbers with nothing dropped, the subscriber has received all and lost none, at every length, for a wrap of 3 or more |
| SvCounter.CleanExactly | adapters/iec61850-rust/src/bin/sv_subscriber.rs:51-79 | an undisturbed publisher is counted without loss, duplicates or disorder at every length if and only if the wrap is at least 3, configured or learned |
| GoosePublisher.BuildSchedule | adapters/libiec61850/src/goose_publisher.c:73-83 | the array is filled with the doublings below MaxTime, at most 16, in 32-bit arithmetic, then MaxTime |
| GoosePublisher.BoundsMeaning | adapters/libiec61850/src/goose_publisher.c:76-78 | without either time 4 and 1000, without MinTime a 64th of MaxTime but at least 1, and a MinTime above MaxTime for both |
| GoosePublisher.ScheduleIncreases | adapters/libiec61850/src/goose_publisher.c:73-83 | the schedule is strictly increasing if and only if no doubling that another follows reaches 2^31; with an effective MaxTime of at most 2^31 it always is |
| GoosePublisher.ScheduleDoubles | adapters/libiec61850/src/goose_publisher.c:73-83 | up to a MaxTime of 2^31 the intervals are MinTime doubled again and again while below MaxTime, sixteen at most, then MaxTime |
| GoosePublisher.TalTwiceExactly | adapters/libiec61850/src/goose_publisher.c:73-100 | for all 32-bit times, every announced timeAllowedToLive is twice its interval if and only if the effective MaxTime is below 2^31 |
| GoosePublisher.MaxTimeWraps | adapters/libiec61850/src/goose_publisher.c:99-100 | the witness: at a MaxTime of exactly 2^31 the announced timeAllowedToLive is 0 |
| GoosePublisher.Publisher.SendFrame | adapters/libiec61850/src/goose_publisher.c:96-128 | the frame sent and the new counters, step and deadline, for a library call that succeeds or fails |
| GoosePublisher.FailedSend | adapters/libiec61850/src/goose_publisher.c:96-128 | a send that fails uses up its interval but no sequence number |
| GoosePublisher.Publisher.StateChange | adapters/libiec61850/src/goose_publisher.c:130-141 | a state change skips state number 0, restarts sequence number and schedule, and sends |
| GoosePublisher.FramesWalkSchedule | adapters/libiec61850/src/goose_publisher.c:96-141 | k frames after the last state change the frame has sequence number k and the k-th interval, or the last one |
| GoosePublisher.StateNumberCounts | adapters/libiec61850/src/goose_publisher.c:130-141 | in every run the state number of a frame is 1 plus the state changes before it modulo 2^32 - 1 |
| GooseSupervision.Subscriber.StreamFor | adapters/libiec61850/src/goose_subscriber.c:69-78 | finds the stream of a reference or appends one while there is room for 64 |
| GooseSupervision.RoomFor64 | adapters/libiec61850/src/goose_subscriber.c:69-78 | a further reference has a stream while there are fewer than 64, and is otherwise neither kept nor signalled |
| GooseSupervision.Subscriber.CheckSupervision | adapters/libiec61850/src/goose_subscriber.c:80-90 | polling updates every stream and emits one timeout for each that passes its deadline now |
| GooseSupervision.Subscriber.Listener | adapters/libiec61850/src/goose_subscriber.c:92-107 | a frame emits ok exactly when its stream had timed out, and restarts only its own stream |
| GooseSupervision.PolledSignalsAlternate | adapters/libiec61850/src/goose_subscriber.c:80-107 | in every run the events of a stream alternate timeout, ok, timeout |
| GooseSupervision.NoTimeout | adapters/libiec61850/src/goose_subscriber.c:80-107 | frames each in time for a supervised one before it signal nothing, whatever the polls in between; a timeAllowedToLive of 0 is unsupervised |
| GooseSupervision.LateFrameCaught | adapters/libiec61850/src/goose_subscriber.c:80-107 | conversely, for a frame that misses its deadline some ordered run of the very same arrivals signals a timeout |
| GooseSupervision.QuietExactly | adapters/libiec61850/src/goose_subscriber.c:80-107 | so arrivals signal nothing in every run, however the polls fall, if and only if each is in time for a supervised one before it |
| GooseSupervision.LatenessIs | adapters/libiec61850/src/goose_publisher.c:96-127 | a frame is as late as it starts past the time it is due plus the time the last one took to send, so one that waits until it is due is never early |
| GooseSupervision.SlackIsOneInterval | adapters/libiec61850/src/goose_publisher.c:96-127 | lateness plus delay growth below the current interval is exactly arrival within timeAllowedToLive |
| GooseSupervision.PublisherKeepsSubscriberQuiet | adapters/libiec61850/src/goose_publisher.c:96-141 | in every run of the publisher, across state changes, with every frame delivered in order within that slack, the subscriber signals nothing |
| GooseSupervision.PromptPublisherKeepsSubscriberQuiet | adapters/libiec61850/src/goose_publisher.c:266-272 | when the bounds on starting late, on sending and on network jitter add up to less than MinTime, no run of the publisher, state changes included, makes the subscriber signal |
| GooseSupervision.StreamsAreIndependent | adapters/libiec61850/src/goose_subscriber.c:69-107 | in a run of any streams together each stream that has a slot is in the state, and has signalled, what its own frames and the polls alone would give |
| GooseSupervision.QuietAmongOthers | adapters/libiec61850/src/goose_subscriber.c:69-107 | so among any other streams a publisher within its slack is never reported |
| GooseSupervision.Supervisor.Frame | adapters/dscsystems/cmd/dscsystems-goose-subscriber/main.go:80-103 | a frame takes a new generation, emits ok if the stream had timed out, and arms a timer if the time is positive |
| GooseSupervision.Supervisor.Callback | adapters/dscsystems/cmd/dscsystems-goose-subscriber/main.go:102-110 | a callback emits a timeout only for the current generation and at most once |
| GooseSupervision.SupervisorInvariant | adapters/dscsystems/cmd/dscsystems-goose-subscriber/main.go:80-110 | in every interleaving a stream's generation counts its frames and its timedOut is the parity of its events |
| GooseSupervision.SignalsAlternate | adapters/dscsystems/cmd/dscsystems-goose-subscriber/main.go:80-110 | in every interleaving of frames and callbacks, started before Stop or not, the events of a stream alternate timeout, ok, timeout |
| GooseSupervision.OnlyLatestTimerSignals | adapters/dscsystems/cmd/dscsystems-goose-subscriber/main.go:96-110 | the callback of an armed timer emits if and only if the last frame of its stream armed it and the events of the stream do not already end in a timeout |
| GooseSupervision.ArmedByFrame | adapters/dscsystems/cmd/dscsystems-goose-subscriber/main.go:96-102 | every armed timer carries the number of a frame of its stream with a positive time |
| GooseSupervision.FrameArms | adapters/dscsystems/cmd/dscsystems-goose-subscriber/main.go:96-102 | a frame with a positive timeAllowedToLive arms one timer, with its number; nothing else arms or disarms any |
| GooseSupervision.SilenceSignalled | adapters/dscsystems/cmd/dscsystems-goose-subscriber/main.go:96-102 | a stream that falls silent is signalled: once the timer of its last frame has fired, its signals end in a timeout |
| GooseSupervision.FrameRecovers | adapters/dscsystems/cmd/dscsystems-goose-subscriber/main.go:89-92 | a frame emits ok if and only if the events of its stream so far end in a timeout |
| MmsTypes.ConformMeaning | adapters/iec61850-rust/src/bin/mms_server.rs:464-492 | conform gives the value with its 64-bit floats narrowed if that has the type, and None otherwise |
| MmsTypes.TypedIsNarrow | adapters/iec61850-rust/src/bin/mms_server.rs:464-492 | a value that has a type is its own narrowing |
| MmsTypes.StringLimit | adapters/iec61850-rust/src/bin/mms_server.rs:472-480 | a size above 0 is the largest length of a string; any other size sets no limit |
| MmsTypes.ConformIdempotent | adapters/iec61850-rust/src/bin/mms_server.rs:464-492 | conform leaves exactly the values of the type unchanged, yields values of the type, and twice is once |
| GoServer.Conforming | adapters/dscsystems/cmd/dscsystems-mms-server/services.go:464-511 | the Go conform, filling its slices in loops, gives the narrowed value if it has the type and None otherwise, for the types a fixture declares |
| GoServer.ConformTwins | adapters/dscsystems/cmd/dscsystems-mms-server/services.go:464-511 | so the two servers take the same values and store the same |
| GoServer.Resolving | adapters/dscsystems/cmd/dscsystems-mms-server/services.go:410-442 | the Go resolve gathers the parts of the name and the steps, refuses a nameless domain, an index range and all elements, and answers with the codes of the source |
| GoServer.ResolveTwins | adapters/dscsystems/cmd/dscsystems-mms-server/services.go:405-442 | for names in UTF-8, the Go server resolves exactly what the Rust one resolves without selecting more than one element or naming a nameless domain, to the same target; the answers, codes included, are equal if and only if the predicate Alike holds |
| GoServer.SingleCodes | adapters/dscsystems/cmd/dscsystems-mms-server/services.go:405-442 | the Go codes: 10 for a nameless domain, an unknown variable or name, 9 for more than one element, 5 for what else is not there |
| GoServer.Getting | adapters/dscsystems/cmd/dscsystems-mms-server/services.go:444-450 | walking the path index by index reads what the Rust get reads |
| GoServer.SinglePositions | adapters/dscsystems/cmd/dscsystems-mms-server/services.go:405-442 | what the Go server resolves is a path of positions only, in the variable's type |
| GoServer.Reading | adapters/dscsystems/cmd/dscsystems-mms-server/services.go:588-596 | one member of a Go read: resolve, then get, with the codes of resolve |
| GoServer.ReadTwins | adapters/dscsystems/cmd/dscsystems-mms-server/services.go:588-596 | the Go server reads exactly what the Rust one reads of members that are not beyond it, the same value; the answers are equal if and only if the two resolve alike |
| GoServer.Handler.WriteMember | adapters/dscsystems/cmd/dscsystems-mms-server/services.go:656-671 | the Go writeOne: resolve, writable, conform, set, with the codes of the source |
| GoServer.WriteTwins | adapters/dscsystems/cmd/dscsystems-mms-server/services.go:656-671 | the Go server accepts exactly the writes the Rust one accepts to members that are not beyond it; the outcomes are equal if and only if the two resolve alike, and then the variables are equal |
| GoServer.WritesTwins | adapters/dscsystems/cmd/dscsystems-mms-server/services.go:638-649 | over any list of writes in order the outcomes of the two servers are equal if and only if they resolve every member alike, and then they are left with the same variables |
| MmsRequests.NameRoundTrip | adapters/iec61850-rust/src/ber.rs:255-279 | a name of each scope is read and parsed back from its encoding |
| MmsRequests.ParseAlt | adapters/iec61850-rust/src/bin/mms_server.rs:328-371 | terminates on every octet string, since nested content is shorter; yields at least one step or one of two error codes |
| MmsRequests.AltForms | adapters/iec61850-rust/src/bin/mms_server.rs:330-371 | which tag is which step, and that any other is unsupported |
| MmsRequests.AltRefused | adapters/iec61850-rust/src/bin/mms_server.rs:299-371 | none or several TLVs are unsupported; incomplete ranges and nested selections are invalid |
| MmsRequests.AltRoundTrip | adapters/iec61850-rust/src/bin/mms_server.rs:328-371 | every path of steps, of any length, with the nested part bare or in a SEQUENCE, is parsed back from its encoding |
| MmsRequests.BuildersRoundTrip | adapters/iec61850-rust/src/bin/mms_client.rs:352-362 | what alt_index, alt_range and alt_component encode parses to exactly that step, for all u32 numbers and all names |
| MmsRequests.EntryRoundTrip | adapters/iec61850-rust/src/bin/mms_client.rs:328-340 | one variable with its alternate access is parsed back as the member it names |
| MmsRequests.ListRoundTrip | adapters/iec61850-rust/src/bin/mms_client.rs:328-340 | what list_of_variable encodes is parsed back as the same members in order |
| MmsRequests.NameOctets | adapters/iec61850-rust/src/ber.rs:272-279 | the octets of a name of each scope, tags and all |
| MmsRequests.AlternateOctets | adapters/iec61850-rust/src/bin/mms_client.rs:352-362 | the octets of the three alternate accesses the client builds |
| MmsRequests.VariableOctets | adapters/iec61850-rust/src/bin/mms_client.rs:328-344 | the octets of a list of one variable, with alternate access or without, and of a list name |
| VariableAccess.ResolveTyped | adapters/iec61850-rust/src/bin/mms_server.rs:380-420 | what resolve yields is a path of the variable's type to a part of the type it reports |
| VariableAccess.GetTyped | adapters/iec61850-rust/src/bin/mms_server.rs:423-433 | in a value of the type every such path and range is in bounds and reads a value of its part's type |
| VariableAccess.SetGet | adapters/iec61850-rust/src/bin/mms_server.rs:423-450 | get after set of a conforming value returns it, and the variable keeps its type |
| VariableAccess.GetSet | adapters/iec61850-rust/src/bin/mms_server.rs:423-450 | setting what was got changes nothing |
| VariableAccess.SetSet | adapters/iec61850-rust/src/bin/mms_server.rs:435-450 | the last of two sets wins |
| VariableAccess.DisjointUntouched | adapters/iec61850-rust/src/bin/mms_server.rs:423-450 | a set leaves every target on a disjoint path as it was, index against range included |
| VariableAccess.FindsFirst | adapters/iec61850-rust/src/bin/mms_server.rs:390-390 | of components with the name asked for, the first is taken |
| VariableAccess.ResolvedIsSelected | adapters/iec61850-rust/src/bin/mms_server.rs:395-433 | steps resolve if and only if they select a part of the value, and get on the resolved path reads that part |
| VariableAccess.FlattenedIsAlternate | adapters/iec61850-rust/src/bin/mms_server.rs:380-420 | for names without $ the flattened name and the alternate access through its components resolve to the same path and type, or both fail, with the codes stated |
| VariableAccess.ResolveCodes | adapters/iec61850-rust/src/bin/mms_server.rs:380-421 | a member that does not resolve is answered with 10 when its name does not, and else with the code of its alternate access or 5 |
| VariableAccess.DollarNeedsAlternate | adapters/iec61850-rust/src/bin/mms_server.rs:380-395 | components at any depth are reached by alternate access through their names, and by some flattened name if and only if none of these names holds a $ |
| VariableNames.NamesAreItems | adapters/iec61850-rust/src/bin/mms_server.rs:208-215 | for well-named variables the names a domain lists are exactly the items that resolve without alternate access |
| VariableNames.NamesDistinct | adapters/iec61850-rust/src/bin/mms_server.rs:208-250 | no name is listed twice |
| VariableNames.UsableExactly | adapters/iec61850-rust/src/bin/mms_server.rs:208-250 | the listed names all resolve and are all different if and only if component names differ within each structure and no variable or component name holds a $ |
| VariableNames.BrowsedItemsResolve | adapters/iec61850-rust/src/bin/mms_server.rs:720-757 | a paged browse of such a domain ends, at any budget, with exactly the items that resolve, each once |
| MmsServer.Model.WriteMember | adapters/iec61850-rust/src/bin/mms_server.rs:452-461 | one write of the model in place: the error code and the new variables |
| MmsServer.WriteOutcome | adapters/iec61850-rust/src/bin/mms_server.rs:452-461 | a write is answered with the resolve error, 3 for a variable that cannot be written, 7 for a value that narrowed does not have the part's type, and otherwise accepted |
| MmsServer.WritesOutcomes | adapters/iec61850-rust/src/bin/mms_server.rs:827-842 | the writes of a request are done in order, and each has the outcome it would have alone |
| MmsServer.WritesElsewhere | adapters/iec61850-rust/src/bin/mms_server.rs:827-842 | what is apart from all writes of a request reads as before |
| MmsServer.WritesLast | adapters/iec61850-rust/src/bin/mms_server.rs:827-842 | an accepted write that the later ones of the request are apart from is what its member reads afterwards |
| MmsServer.TriggersExactly | adapters/iec61850-rust/src/bin/mms_server.rs:834-834 | the reports are set off by report-trigger and what is flattened from it |
| MmsServer.AccessClasses | adapters/iec61850-rust/src/bin/mms_server.rs:524-531 | the access error classes of the data access errors |
| MmsServer.ReadAfterWrite | adapters/iec61850-rust/src/bin/mms_server.rs:452-461 | an accepted write is read back, its floats narrowed; a refused one changes nothing |
| MmsServer.ReadSelects | adapters/iec61850-rust/src/bin/mms_server.rs:380-433 | a read by the alternate access a client encodes returns the part its steps select, or invalid-address |
| MmsServer.WriteElsewhere | adapters/iec61850-rust/src/bin/mms_server.rs:452-461 | a write leaves other variables and disjoint parts of the same variable as they were |
| MmsServer.WriteOneKeeps | adapters/iec61850-rust/src/bin/mms_server.rs:452-461 | a write keeps every type, every name and every read-only value |
| MmsServer.Assoc.Read | adapters/iec61850-rust/src/bin/mms_server.rs:792-809 | from the octets of the request: the specification as it came if asked for, and one result for each selected member, in order |
| MmsServer.Assoc.Write | adapters/iec61850-rust/src/bin/mms_server.rs:811-845 | from the octets of the request: data decoded in a loop, writes in order, one outcome each; a request that does not decode or whose counts differ is refused unwritten; an accepted report trigger is noted |
| MmsServer.Assoc.DefineNvl | adapters/iec61850-rust/src/bin/mms_server.rs:858-882 | the refusal in the order of the source's checks, or the list added in its scope |
| MmsServer.Assoc.DeleteNvl | adapters/iec61850-rust/src/bin/mms_server.rs:900-931 | the counts and the lists left, or a refusal after the deletions before a malformed name |
| MmsServer.DefineMeaning | adapters/iec61850-rust/src/bin/mms_server.rs:858-882 | a refused define leaves all lists unchanged; an accepted one adds its list under a free name and touches no other |
| MmsServer.RefusedDefineChangesNothing | adapters/iec61850-rust/src/bin/mms_server.rs:858-882 | a refused define request changes neither the shared nor the association's lists |
| MmsServer.RunKeeps | adapters/iec61850-rust/src/bin/mms_server.rs:811-931 | after any requests of any associations every stored value has its type, read-only variables hold their initial values, and every member of every list resolves |
| MmsServer.DefinedListReads | adapters/iec61850-rust/src/bin/mms_server.rs:760-809 | in every reachable state reading a defined list gives a value for each member, never a data access error |
| MmsServer.DeletesAllMatched | adapters/iec61850-rust/src/bin/mms_server.rs:900-931 | in every reachable state a delete that is not refused deletes every list it matches |
| ListSessions.DefineRequestRead | adapters/iec61850-rust/src/bin/mms_client.rs:519-522 | the server parses the client's define request to the same name and variables |
| ListSessions.DeleteRequestRead | adapters/iec61850-rust/src/bin/mms_client.rs:548-549 | the server parses the client's delete request to the same name |
| ListSessions.NameSelected | adapters/iec61850-rust/src/bin/mms_client.rs:342-344 | a read of a list by name selects the members of that list, or the lookup's error |
| ListSessions.ReadRequestRead | adapters/iec61850-rust/src/bin/mms_client.rs:448-454 | the server reads from a read request the flag and the choice the client put there |
| ListSessions.ReadVariables | adapters/iec61850-rust/src/bin/mms_server.rs:792-809 | the request to read variables is answered with a result for each, and its specification if asked for |
| ListSessions.VariableSelected | adapters/iec61850-rust/src/bin/mms_server.rs:760-780 | over the octets, a variable of a domain is looked for in that domain |
| ListSessions.ReadResultSelects | adapters/iec61850-rust/src/bin/mms_server.rs:792-809 | each result of a read request is the part the steps of its variable select, or 10 without the variable, or 5 when they select nothing |
| ListSessions.ReadResultWhole | adapters/iec61850-rust/src/bin/mms_server.rs:792-809 | a variable without alternate access is read whole, or answered with 10 |
| ListSessions.ReadList | adapters/iec61850-rust/src/bin/mms_server.rs:792-809 | the request to read a list is answered with a result for each of its members, or the lookup's error |
| ListSessions.WriteRequestRead | adapters/iec61850-rust/src/bin/mms_client.rs:476-478 | the server reads from a write request the variables and data the client put there, for an encoder and decoder of Data that are inverse |
| ListSessions.WriteThenRead | adapters/iec61850-rust/src/bin/mms_server.rs:792-845 | over the octets of both requests, an accepted write is what a read then returns, its floats narrowed; a refused one leaves every variable as it was |
| ListSessions.WriteRequestAnswer | adapters/iec61850-rust/src/bin/mms_server.rs:811-845 | the answer to a request to write the part steps select: 10, 5, 3 or 7 in that order, and otherwise success |
| ListSessions.WriteRequestOutcomes | adapters/iec61850-rust/src/bin/mms_server.rs:811-845 | a request to write several variables is answered with the outcome each write would have alone |
| ListSessions.WrittenValueLives | adapters/iec61850-rust/src/bin/mms_server.rs:792-845 | a value written by one association is what any association reads, through any requests that are not writes |
| ListSessions.OneWriteTriggers | adapters/iec61850-rust/src/bin/mms_server.rs:834-841 | a write request sends the reports if and only if the write is accepted and its variable is report-trigger or flattened from it |
| ListSessions.MalformedReadWrite | adapters/iec61850-rust/src/bin/mms_server.rs:792-825 | requests without a choice, without data, with data that does not decode or of another number are refused and change nothing |
| ListSessions.SpecificationFlag | adapters/iec61850-rust/src/bin/mms_server.rs:793-809 | the specification comes back if and only if the flag's first octet is not 0 |
| ListSessions.NewAssociation | adapters/iec61850-rust/src/bin/mms_server.rs:575-600 | a new association begins without lists of its own and finds all others as they were |
| ListSessions.DefineRequestMeaning | adapters/iec61850-rust/src/bin/mms_server.rs:858-882 | a define request over the wire is accepted if and only if every variable resolves, the scope exists and the name is free; the list then selects what the request's variables select |
| ListSessions.DefinedListLives | adapters/iec61850-rust/src/bin/mms_server.rs:760-931 | through any later requests of any associations that do not drop the list, the request to read it is answered with a value for every variable of its definition, in order |
| ListSessions.DeletesExactly | adapters/iec61850-rust/src/bin/mms_server.rs:900-931 | a delete removes exactly the named lists before the first malformed name; it is refused if and only if there is one, which does not bring the others back |
| ListSessions.DeletesCounted | adapters/iec61850-rust/src/bin/mms_server.rs:900-931 | the deleted count is the number of different lists named, however often each is named |
| ListSessions.DeleteRequestMeaning | adapters/iec61850-rust/src/bin/mms_server.rs:900-931 | deleting a list over the wire reports one match and one deletion, or none if it did not exist, and other lists stay |
| ListSessions.ListRequestOctets | adapters/iec61850-rust/src/bin/mms_client.rs:519-549 | the octets of the define and delete requests |
| ListSessions.ReadRequestOctets | adapters/iec61850-rust/src/bin/mms_client.rs:448-454 | the octets of a read request around its choice |
| ListSessions.WriteRequestOctets | adapters/iec61850-rust/src/bin/mms_client.rs:476-478 | the octets of a write request around its choice and data |
| ListSessions.OtherDeletes | adapters/iec61850-rust/src/bin/mms_server.rs:900-931 | a scope other than 0 is unsupported, no names delete nothing, and a malformed name refuses the request |
| ListSessions.ScopeByDefault | adapters/iec61850-rust/src/bin/mms_server.rs:900-931 | without a scope the request is one of scope 0 |
| GoServer.Handler.DefineNvl | adapters/dscsystems/cmd/dscsystems-mms-server/services.go:729-762 | the Go defineNVL on the octets of a request: reading, then scope and name, then members; a refusal changes nothing |
| GoServer.StrictAgrees | adapters/dscsystems/cmd/dscsystems-mms-server/services.go:524-550 | a request the Go server can read, with names in UTF-8, the Rust one reads as the same name and members |
| GoServer.StrictReadsClient | adapters/dscsystems/cmd/dscsystems-mms-server/services.go:729-743 | the Go server reads the name and variables of every define request the Rust client builds |
| GoServer.DefineTwins | adapters/dscsystems/cmd/dscsystems-mms-server/services.go:729-762 | for names in UTF-8: on a free name both servers accept alike and answer alike if and only if some member does not resolve or none selects more than one element or names a nameless domain; on a name that is not free both refuse, alike if and only if every member resolves |
| GoServer.DefineRequestTwins | adapters/dscsystems/cmd/dscsystems-mms-server/services.go:729-762 | the same for the octets of any request the Go server can read; the lists stay equal if and only if both accept alike |
| GoServer.ReplacedNames | adapters/iec61850-rust/src/ber.rs:31-33 | names that are not UTF-8: after a list of one name the two servers accept a list of another alike if and only if the replacement of the Rust reader keeps the two names apart; where it does not, Rust answers object-exists |
| GoServer.RangeDefineDiffers | adapters/dscsystems/cmd/dscsystems-mms-server/services.go:424-432 | a free list over any range within an array: the Rust server takes it, the Go server answers object-undefined |
| NameListPaging.ListPage | adapters/iec61850-rust/src/bin/mms_server.rs:743-757 | the page and moreFollows: the names after the given one, the first always, others while they fit |
| NameListPaging.RequestRoundTrip | adapters/iec61850-rust/src/bin/mms_client.rs:488-498 | the server reads from a GetNameList request the class, scope and name the client put there |
| NameListPaging.PageRoundTrip | adapters/iec61850-rust/src/bin/mms_client.rs:499-504 | the client reads from a response the names and moreFollows the server put there |
| NameListPaging.ListRequestOctets | adapters/iec61850-rust/src/bin/mms_client.rs:488-498 | the octets of the three kinds of request |
| NameListPaging.PageOctets | adapters/iec61850-rust/src/bin/mms_server.rs:752-757 | the octets of a response around its names |
| NameListPaging.MoreByDefault | adapters/iec61850-rust/src/bin/mms_client.rs:499-505 | a response without moreFollows says that more follows, with it its first octet does |
| NameListPaging.PageFits | adapters/iec61850-rust/src/bin/mms_server.rs:747-755 | a page is within the budget unless its one name is not |
| NameListPaging.PageFull | adapters/iec61850-rust/src/bin/mms_server.rs:747-755 | when more follows, the page could not have held one name more |
| NameListPaging.ResponseFits | adapters/iec61850-rust/src/bin/mms_server.rs:746-757 | a response fits the negotiated PDU, with 8 octets to spare, unless its one name does not |
| NameListPaging.PageStart | adapters/iec61850-rust/src/bin/mms_server.rs:735-745 | after a name that is not listed a page is the first page; after one that is, it starts behind its first occurrence |
| NameListPaging.NameList | adapters/iec61850-rust/src/bin/mms_client.rs:487-510 | over requests and responses as octets the client's loop ends with the server's names, in order, none lost or repeated |
| NameListPaging.BrowseCompletes | adapters/iec61850-rust/src/bin/mms_client.rs:487-510 | it needs at most one response for each name, and one for an empty list |
| NameListPaging.BrowsableExactly | adapters/iec61850-rust/src/bin/mms_client.rs:487-510 | a browse completes at every budget if and only if all names but the last are different; otherwise a budget of zero never ends |
| FileSessions.ReadFileName | adapters/iec61850-rust/src/ber.rs:281-293 | joins the parts of a FileName, or None after a malformed one |
| FileSessions.FileNameRoundTrip | adapters/iec61850-rust/src/ber.rs:281-298 | parse_file_name gives back the name file_name encodes |
| FileSessions.NameOfParts | adapters/iec61850-rust/src/ber.rs:281-293 | a name is its parts joined, whatever their tags, and is refused if and only if one is malformed |
| FileSessions.TrimmedName | adapters/iec61850-rust/src/bin/mms_server.rs:1071-1071 | any slashes before a name that does not begin with one are all that is left out |
| FileSessions.SlashesFirst | adapters/iec61850-rust/src/bin/mms_server.rs:1071-1071 | and every name is of that form |
| FileSessions.Store.FileDelete | adapters/iec61850-rust/src/bin/mms_server.rs:1100-1105 | removes the named file, leading slashes ignored, or says it does not exist |
| FileSessions.Store.FileRename | adapters/iec61850-rust/src/bin/mms_server.rs:1107-1115 | moves the file to the new name, over one that has it, or says it does not exist |
| FileSessions.DeleteMeaning | adapters/iec61850-rust/src/bin/mms_server.rs:1100-1105 | over the wire, with any slashes before the name: refused if and only if the file does not exist; otherwise it is gone and every other file is as it was |
| FileSessions.RenameRequestRead | adapters/iec61850-rust/src/bin/mms_client.rs:1071-1071 | the server reads both names of the client's rename request |
| FileSessions.RenameMeaning | adapters/iec61850-rust/src/bin/mms_server.rs:1107-1115 | over the wire, with any slashes before the names: the old name is free, the new name has the file, every other file is as it was |
| FileSessions.ObtainMeaning | adapters/iec61850-rust/src/bin/mms_server.rs:1147-1150 | an obtained file is stored under the destination without its slashes, and every other file is as it was |
| FileSessions.ChangesInOrder | adapters/iec61850-rust/src/bin/mms_server.rs:1100-1150 | changes to the store take effect one after the other |
| FileSessions.MalformedRefused | adapters/iec61850-rust/src/bin/mms_server.rs:1100-1115 | a delete or rename whose names are malformed or missing is refused and changes nothing |
| FileSessions.RenameBackExactly | adapters/iec61850-rust/src/bin/mms_server.rs:1107-1115 | renaming back restores the store if and only if nothing was replaced |
| FileSessions.FileAssoc.FileOpen | adapters/iec61850-rust/src/bin/mms_server.rs:1066-1082 | copies the file as it is now under the next id, or the error: malformed, missing, position beyond the end |
| FileSessions.FileAssoc.FileRead | adapters/iec61850-rust/src/bin/mms_server.rs:1084-1093 | the next octets of the copy and whether more follow, or an error for an id that is not open |
| FileSessions.FileAssoc.FileClose | adapters/iec61850-rust/src/bin/mms_server.rs:1095-1098 | forgets an open id, or an error |
| FileSessions.OpenAnswer | adapters/iec61850-rust/src/bin/mms_server.rs:1066-1082 | the answer to an open request with any slashes before the name, with a position or from the start: non-existent, position invalid, or the next id and the file |
| FileSessions.MalformedOpen | adapters/iec61850-rust/src/bin/mms_server.rs:1066-1069 | a request to open whose name is malformed or missing is refused |
| FileSessions.UnknownIds | adapters/iec61850-rust/src/bin/mms_server.rs:1084-1098 | reading and closing an id that is not open is refused and changes nothing; closing forgets that id and no other |
| FileSessions.ChunkFits | adapters/iec61850-rust/src/bin/mms_server.rs:1084-1093 | a read gives at most 65000 octets and 32 less than the PDU size, and as many as that when more follow |
| FileSessions.ReadsAreIsolated | adapters/iec61850-rust/src/bin/mms_server.rs:1066-1098 | whatever other requests and other associations do, the reads of an open id are answered with consecutive pieces of its copy |
| FileSessions.SessionDelivers | adapters/iec61850-rust/src/bin/mms_server.rs:1066-1098 | from its opening on the replies to a session hold the file's octets from the position asked for, as at the opening, and the last says whether more follow |
| FileSessions.IdsCountUp | adapters/iec61850-rust/src/bin/mms_server.rs:1078-1079 | the ids given out in a run are consecutive numbers, so none is used twice |
| FileSessions.ClosedForGood | adapters/iec61850-rust/src/bin/mms_server.rs:1084-1098 | an id that was closed is refused in every later read |
| FileTransfer.OpenRequestRoundTrip | adapters/iec61850-rust/src/bin/mms_client.rs:990-992 | the server reads the name and position of the client's open request |
| FileTransfer.ReadOpening | adapters/iec61850-rust/src/bin/mms_client.rs:996-1011 | the client's loops over the open reply collect the last id, size and time |
| FileTransfer.OpenReplyRoundTrip | adapters/iec61850-rust/src/bin/mms_server.rs:1013-1018 | the client learns the id, the size and the time of modification the server sent, for all i64 ids and times |
| FileTransfer.ChunkReplyRoundTrip | adapters/iec61850-rust/src/bin/mms_server.rs:1092-1092 | the client reads the octets and moreFollows of a read reply |
| FileTransfer.FileRequestOctets | adapters/iec61850-rust/src/bin/mms_client.rs:990-992 | the octets of a file name and of the open and rename requests |
| FileTransfer.OpenReplyOctets | adapters/iec61850-rust/src/bin/mms_server.rs:1081-1081 | the octets of the reply to an open request |
| FileTransfer.ChunkReplyOctets | adapters/iec61850-rust/src/bin/mms_server.rs:1092-1092 | the octets of the reply to a read request |
| FileTransfer.UnknownFields | adapters/iec61850-rust/src/bin/mms_client.rs:996-1011 | fields the client does not know are passed over, and a reply it cannot read has none |
| FileTransfer.ReadReplyFits | adapters/iec61850-rust/src/bin/mms_server.rs:1084-1093 | every encoded reply to a read fits the negotiated PDU with 20 octets to spare |
| FileTransfer.ChunkByDefault | adapters/iec61850-rust/src/bin/mms_client.rs:1021-1024 | a reply without moreFollows says that more follows, with it its first octet does |
| FileTransfer.WantedMeaning | adapters/iec61850-rust/src/bin/mms_client.rs:990-1060 | what the client ends with, in terms of the file: octets from the position on, their number in all, and the time in four-digit years |
| FileTransfer.ReadRemote | adapters/iec61850-rust/src/bin/mms_client.rs:990-1060 | over requests and replies as octets the client's loop ends with exactly the octets from the position on as the file was when opened, whatever others do to the store before each request, and leaves no session behind |

## Left out

- GoServer.ResolveTwins: the Go library's ParseAlternateAccess and AccessPath are not part of this model; they are taken to read the same syntax and take the same steps as the Rust code, and, as services.go says, to refuse every index range and all elements as unsupported.
- GoServer.Resolving: which malformed alternate access that library calls unsupported rather than malformed is taken to be as in parse_alt.
- GoServer.Handler.DefineNvl: the library's BER decoder is not part of this model; it is taken to read a TLV as the Rust reader does.
- GoServer.Conforming: covers the types a fixture declares; mms-string and 64-bit float types have no case of their own in the Go code.
- GoServer.DefineTwins: names are octets; where a name or the name of a member or component is not UTF-8 the Rust server replaces octets that the Go server keeps, which the statement does not cover; GoServer.ReplacedNames says what follows for names of lists.
- GoServer.DefineRequestTwins: as for DefineTwins, names that are not UTF-8 are not covered.
- GoServer.StrictAgrees: as for DefineTwins, names that are not UTF-8 are not covered.
- GoServer: its deleteNVL, its list attributes and the request octets of its read and write are not modelled; reading and writing are modelled member by member and as a list of writes.
- Go name lists: paging is as in Rust, save that an empty name to continue after counts as none and a PDU size of 0 as unlimited.
- VariableAccess.SetGet: the stored value is rebuilt, not changed in place through a reference, so aliasing inside the tree is not captured.
- Calendar.DaysFromCivilIsDayCount: day numbers are unbounded integers; Calendar.TrapsExactly and Calendar.WrappedIsExact say when machine words agree with them.
- SvCounter.LossConserved: totals are unbounded; their overflow at 2^64 is not modelled.
- SvCounter: how a subscriber finds its stream and loads its wrap is left out; the Rust loader keeps it between 1 and 65536.
- GoosePublisher.FramesWalkSchedule: for fewer than 2^31 actions, where neither the sequence number nor the C int that holds the step wraps.
- GoosePublisher: encoding and sending a frame are the library's; whether the library sent it is a parameter.
- GooseSupervision.Supervisor.Callback: any timer armed before may fire at any later point and more than once, which covers every order a real timer allows and more.
- GooseSupervision.Subscriber.StreamFor: references are compared whole; the cut to 129 characters is not modelled.
- TypedJson.RoundTrip: floats are opaque bit patterns with their conversion and printing as parameters, so float members are read and printed but no round trip is claimed for them.
- SeqData.SeqRoundTrip: for a float member it says that the same bits are decoded, not how they print.
- Strings: octets that are not UTF-8 are kept as they are, where from_utf8_lossy would replace them.
- MmsServer.Assoc.Write: the decoder of one Data belongs to a library that is not part of this model; any decoder that takes at least one octet may stand for it. The TypeSpecification codec is left out.
- MmsServer.RunKeeps: from a loaded model whose values have their declared types; loading a fixture is not modelled.
- MmsServer: what a triggered report contains, list attributes, variable access attributes, journals, identify and status are left out.
- NameListPaging.NameList: which list a class and scope select is a table lookup and is left out; the names do not change during a browse.
- NameListPaging.NameList: each name, and the budget, leave room for 32-bit lengths, as a negotiated 32-bit PDU size does.
- FileTransfer.ReadRemote: an FRSM id beyond 2^63 - 1 is not modelled; errors of the transport are left out.
- FileSessions.Store.Insert: ObtainFile is its last step, the insertion of a file that has come whole; its own read loop on the client is the one of FileTransfer.
- File directories: their paging treats an empty store specially in the client; it would only repeat the name-list argument on other entries.
- COTP, session, presentation, ACSE, sockets, threads, signals, command lines and JSON line output: plumbing over libraries.
- The IED client, controller, reporter and server commands, the Java adapter and the Python scripts: call sequences over library APIs.

# mlmmj: a verified model

A Dafny model of the parts of mlmmj, a mailing list manager, whose correctness is hardest to see from the
code: five groups of modules, each following the C code it models branch by branch.

**The foot filter** (`contrib/foot_filter`). `Bytes`, `QuotedPrintable`, `Base64` and `Codec` hold the streaming
encoders and decoders, character-at-a-time state machines over a small buffer. `Fifo` says what the two-level
buffer is meant to be, a plain queue with a read cursor and a mark, and `Callbacks` where its operations stop;
`MailBuffer` is the real one, a disk prefix and a ring of 65536 bytes, with decoding in place; `Replacements`
rewrites ranges of it on the way out. `Legible` is about what of a mail encoding leaves as it is. Characters are
unsigned bytes or EOF.

**Text engines** (`src/prepstdreply.c`, `src/unistr.c`, `src/find_email_adr.c`). `Conditionals` is the stack
machine for `%if...%`, `%else%` and `%endif%`; `WordWrap` the paragraph wrapper; `Unistr` the UTF-8 codec over a
growable array; `HeaderWords` the encoded words of headers; `Skin` the address skinner, `SkinLists` what it keeps.

**Distribution and the wire** (`src/mlmmj-send.c`, `src/getaddrsfromfd.c`, `src/mail-functions.c`,
`src/mlmmj-maintd.c`). `AddressFiles` is the reading and writing of address files, `Distribution` the batching,
requeueing and resending of a mail, `SmtpPayload` the two ways of writing a mail behind DATA, with a receiver.

**Subscriptions and bounces** (`src/mlmmj-sub.c`, `src/mlmmj-unsub.c`, `src/subscriberfuncs.c`,
`src/mlmmj-bounce.c`, `src/mlmmj-maintd.c`). `Subscription` works on directories of subscriber files;
`BounceMachine` is the machine of bounce records and probes over arbitrary event sequences, `BounceDirectory` the
programs that run it on files, `Decimal` their timestamps.

**Bounce addresses** (`src/mlmmj-send.c`, `src/mlmmj-process.c`, `src/listcontrol.c`, `src/mlmmj-bounce.c`). `Verp`
follows an address from the program that writes it through the three that read it, `Commands` is about the command
table on its way.

Code that changes state step by step is modelled by methods over arrays, fields and loops, tied to functions
of the old state; the laws are lemmas about those functions. Replies of the mail server, signals, forks, the
clock and failing writes are nondeterministic choices, so a method's contract holds for all of them. iconv
is a function parameter, as is the memory behind a buffer where the code may read or send it. `Seqs` and `Bags`
hold laws of sequences and multisets, `Wrappers` what several modules share, `Letters` the case of letters, told by
the alphabet.

Where the code does less than its documentation, or a property holds only under a condition, the condition is
proved exact:

- In-place decoding is safe exactly from a state in which the decoder owes no output (`Codec.NeverOvertakesIffSafe`).
- UTF-8 round-trips exactly for characters with a data bit in their leading octet (`Unistr.RoundTripIff`), and
  octets survive decoding and encoding exactly if they are such encodings (`Unistr.ReencodeIff`); so do headers
  (`HeaderWords.HeaderRoundTrip`, `HeaderWords.Base64RoundTrip`).
- What is sent from memory is what the streaming writer writes exactly if the mail ends in LF, no header line but
  the first begins with a dot, and no finished line of the body has a NUL that something else follows, as strncpy
  stops at it (`SmtpPayload.PreparedIsStream`). With a first line that does not begin with a dot either, these are
  the mails that arrive intact from memory, whatever it held before (`SmtpPayload.AlwaysDelivered`). The streamed
  ones are those that end in LF and do not begin with a dot (`SmtpPayload.StreamDelivers`).
- unsubscribe takes an address out of a directory exactly if no file has it on two lines or on a last line without
  newline (`Subscription.RemovedKeeps`).
- A switch of subscription ends in the wanted version except for an address in all three versions that wants the
  normal one (`Subscription.ListDir.Subscribe`).
- A subscription leaves the lines of other addresses as they are exactly if the file it goes to ends in a newline
  (`Subscription.AddedKeeps`).
- Times of bounces are read back from the records exactly if the message number is free of ':', '#' and line ends
  and short enough for the buffer (`BounceDirectory.ReadableIff`). Nothing on the way of a bounce sees to that
  (`Verp.NumberRead`). From other numbers maintenance reads a time of their own or none
  (`BounceDirectory.OtherTime`), so that an address can be unsubscribed at once (`Verp.PlantedBounce`); no address
  is unsubscribed too soon exactly if no record begins with an earlier time (`BounceMachine.NeverTooSoonIff`).
- A probe carries no number, so a late bounce of an earlier record's probe takes away the probe of the present
  record. The answer that lets a probed address be unsubscribed is that of the record's own probe exactly if
  it is no late bounce (`BounceMachine.OwnAnswerIff`); and wherever a run is stopped and however long is waited then,
  all unsubscriptions are so founded, exactly if the run has no late bounce (`BounceMachine.NeverAstrayIff`).
- unsub_bouncers restores the first '=' of a record name where the other programs restore the last
  (`BounceDirectory.UnsubAddressIff`).
- A bounce address is read back exactly if the delimiter does not occur in the list name or across its end, and
  the recipient is lower-case, free of '/' and without '=' behind its '@' (`Verp.VerpRoundTrip`).

## Model

| member | source | states |
|---|---|---|
| QuotedPrintable.TextOfEncode | contrib/foot_filter/foot_filter.c:2269-2349 | under a lookahead definition of quoted-printable text that knows nothing of the encoder, the output says exactly the bytes that went in, soft breaks between a held CR and its LF included |
| QuotedPrintable.EncodeShape | contrib/foot_filter/foot_filter.c:2265-2349 | for every input, no output line is longer than 74, no blank stands before a CRLF or at the end |
| QuotedPrintable.EchoedBounds | contrib/foot_filter/foot_filter.c:2265-2349 | between calls `encoding_echoed` is the column of the output, at most 73, and below 55 while a blank is held |
| Legible.EncodedIsMailSafe | contrib/foot_filter/foot_filter.c:2269-2349 | whatever the input, the output is printable ASCII, blanks and line ends |
| Legible.LineStays | contrib/foot_filter/foot_filter.c:2269-2349 | a line of visible ASCII and inner blanks, of up to 55 characters, is its own encoding |
| Legible.FirstLineStays | contrib/foot_filter/foot_filter.c:2269-2349 | in front of anything else too, with its line end, behind which encoding starts afresh |
| Legible.HexDigits | contrib/foot_filter/foot_filter.c:2542-2567 | the digits of escapes are the places of their characters in "0123456789ABCDEF", both ways |
| QuotedPrintable.DecodeIsText | contrib/foot_filter/foot_filter.c:2407-2457 | the decoder with its two-character buffer, finished with EOF, reads every byte sequence as the lookahead definition does |
| Legible.BrokenStays | contrib/foot_filter/foot_filter.c:2407-2457 | a text in which no "=" begins an escape or a soft line break is read as it stands |
| QuotedPrintable.DecodeOfEncode | contrib/foot_filter/foot_filter.c:2269-2457 | decode of encode is the identity on every byte sequence |
| QuotedPrintable.DecodeShrinks | contrib/foot_filter/foot_filter.c:2407-2457 | the bytes decoded and those held back never outnumber the bytes read |
| QuotedPrintable.DecodeIdleAfterLine | contrib/foot_filter/foot_filter.c:2407-2457 | behind any CRLF the decoder is back at `decoding_filled` = 0 |
| Bytes.LinesAtMostMeaning | contrib/foot_filter/foot_filter.c:2265-2386 | what the line bounds mean without columns: every stretch free of line ends is that short |
| Base64.TextLines | contrib/foot_filter/foot_filter.c:2350-2386 | lines of base64 output are at most 72 characters |
| Base64.LineFilled | contrib/foot_filter/foot_filter.c:2350-2386 | the line break comes behind 72 characters and nowhere else |
| Base64.QuadDigits | contrib/foot_filter/foot_filter.c:2350-2386 | each group of bytes, as one number, is written in its digits to the base 64, told by the alphabet "A..Za..z0..9+/", with "=" for those not there |
| Base64.PlaceInAlphabet | contrib/foot_filter/foot_filter.c:2547-2555 | a character is read as its place in that alphabet, and no other has a value |
| Base64.EncodeIsText | contrib/foot_filter/foot_filter.c:2350-2386 | the three-byte accumulator, finished with EOF, writes quads, padding and line breaks as the grouping definition says |
| Base64.DecodeOfText | contrib/foot_filter/foot_filter.c:2458-2479 | the decoder gives back every byte sequence from its text, breaks and padding included, and ends empty |
| Base64.DecodeOfEncode | contrib/foot_filter/foot_filter.c:2350-2479 | decode of encode is the identity on every byte sequence |
| Base64.ForeignSkipped | contrib/foot_filter/foot_filter.c:2458-2479 | neither this decoder nor that of headers cares for characters outside the alphabet, wherever they stand |
| Base64.DecodeShrinks | contrib/foot_filter/foot_filter.c:2458-2479 | from a state that owes no output, never more is written than read |
| Base64.AccumulateOfText | src/unistr.c:383-401 | the independently written decoder of headers, on a 32-bit accumulator, yields the same bytes on everything the encoder writes |
| Codec.Encoder.EncodeChar | contrib/foot_filter/foot_filter.c:2265-2390 | one call of encodechar in any scheme is one step of the encoders above, on the global buffer and counters |
| Codec.EncodePart | contrib/foot_filter/foot_filter.c:2256-2397 | a whole part pushed through encodechar and finished means the input, and keeps to its line rules |
| Codec.Decoder.DecodeChar | contrib/foot_filter/foot_filter.c:2399-2485 | one call of decodechar in any scheme is one step of the decoders above; `r` is always 0 |
| Codec.NeverOvertakesIffSafe | contrib/foot_filter/foot_filter.c:2399-2541 | exactly the states that owe no output never write more than they have read, whatever comes next |
| Codec.SafeNeverOvertakes | contrib/foot_filter/foot_filter.c:2486-2541 | the direction in-place decoding needs, for every input |
| Codec.Overrun | contrib/foot_filter/foot_filter.c:2399-2485 | every other state has an input on which it overtakes |
| Fifo.AnyRunKeepsStream | contrib/foot_filter/foot_filter.c:1766-2023 | over any interleaving of fill, look, empty and shunt_to_disk, bytes removed, then buffered, then unread are the input, and the counters stay consistent |
| Fifo.FillKeeps | contrib/foot_filter/foot_filter.c:1934-1980 | filling, with whatever is done when the buffer is full, keeps the stream |
| Fifo.EmptyKeeps | contrib/foot_filter/foot_filter.c:1872-1915 | so does emptying |
| Fifo.LookKeeps | contrib/foot_filter/foot_filter.c:1780-1815 | looking moves at most the read cursor |
| Fifo.EmptySpan | contrib/foot_filter/foot_filter.c:1872-1915 | emptying under a counting callback is a plain removal of that many bytes |
| Callbacks.FillLine | contrib/foot_filter/foot_filter.c:2072-2093 | filling until a line has ended takes exactly the first line of the input, with its CRLF, and leaves the rest unread; counting, it counts that line |
| Callbacks.LookLine | contrib/foot_filter/foot_filter.c:2072-2093 | looking until a line has ended stops behind the first CRLF from the read cursor, which moves there if it is a read |
| Callbacks.FillLastLine | contrib/foot_filter/foot_filter.c:1934-1980 | without a CRLF in it, the whole input is taken |
| Callbacks.FillsBehind | contrib/foot_filter/foot_filter.c:1934-1980 | for any callback, filling ends behind the bytes it asks for, with the contents grown by exactly these and an echoing callback having passed them on |
| Callbacks.LooksBehind | contrib/foot_filter/foot_filter.c:1766-1815 | so does looking, which leaves the contents alone and moves the read cursor only if it reads |
| Callbacks.EmptiesBehind | contrib/foot_filter/foot_filter.c:1872-1915 | so does emptying, which removes exactly these bytes, and outputs them if the callback echoes |
| Callbacks.MatchRuns | contrib/foot_filter/foot_filter.c:2066-2070 | a matching callback asks for everything up to and with the first match |
| Callbacks.CountRuns | contrib/foot_filter/foot_filter.c:2036-2038 | a counting callback asks for exactly that many |
| Callbacks.CountOrMatchRuns | contrib/foot_filter/foot_filter.c:2066-2070 | the two together for what comes first, and says which it was |
| Callbacks.OneRuns | contrib/foot_filter/foot_filter.c:2027-2030 | and for a single character, which it hands over |
| Callbacks.RoomMade | contrib/foot_filter/foot_filter.c:1934-1980 | room is made by taking out the front of the buffer, which is output when echoing and not when discarding |
| Callbacks.CutKeepsPlaces | contrib/foot_filter/foot_filter.c:1872-1915 | what is taken out at the front leaves read cursor and mark at the same bytes, or at the new front |
| MailBuffer.MailBuffer.Fill | contrib/foot_filter/foot_filter.c:1934-1980 | fill on disk prefix and ring refines the FIFO's fill, result and exit included |
| MailBuffer.MailBuffer.Empty | contrib/foot_filter/foot_filter.c:1872-1915 | empty on disk prefix and ring refines the FIFO's |
| MailBuffer.MailBuffer.Look | contrib/foot_filter/foot_filter.c:1780-1815 | look on disk prefix and ring refines the FIFO's |
| MailBuffer.MailBuffer.ShuntToDisk | contrib/foot_filter/foot_filter.c:1999-2023 | shunting bytes to disk leaves the logical contents unchanged |
| MailBuffer.Ring.DecodeInPlace | contrib/foot_filter/foot_filter.c:2486-2541 | decoding within the ring, across its wrap, leaves what was before the region followed by the functional decoding of it |
| MailBuffer.MailBuffer.DecodeLookahead | contrib/foot_filter/foot_filter.c:2486-2541 | decode_lookahead replaces the unread part by its decoding and keeps the counters; it refuses if that lies on disk |
| Replacements.SpliceRound | contrib/foot_filter/foot_filter.c:1577-1619 | writing up to the first range and rebasing the rest adds up to the original with every range replaced |
| Replacements.SpliceRebased | contrib/foot_filter/foot_filter.c:1577-1619 | positions rebased after a partial emptying denote the same replacement |
| Replacements.SpliceOfStretches | contrib/foot_filter/foot_filter.c:1577-1619 | in a text put together of bytes that stay and stretches that go, with the ranges of these in any order, exactly these are replaced |
| Replacements.Replacer.MakeReplacements | contrib/foot_filter/foot_filter.c:1577-1619 | for any unordered list of non-empty disjoint ranges, what is written followed by the rest of the buffer is the original with each range replaced |
| Replacements.Replacer.FlushLookbehind | contrib/foot_filter/foot_filter.c:1566-1573 | everything read leaves the buffer, with its ranges replaced, and nothing else |
| Conditionals.RunMeaning | src/prepstdreply.c:738-929 | on every well-nested text the stack machine lets through exactly what the recursive meaning of if, else and endif says; only tests in live parts need a subject that is set and proper parameters, as those in dead parts are never made |
| Conditionals.OutermostDeadMeaning | src/prepstdreply.c:738-799 | the entry `skip` is kept equal to is dead, and everything further out is live |
| Conditionals.TestsItsField | src/prepstdreply.c:759-774 | a test with any parameters can be made exactly if the field it is named after is set, and some parameter decides it by that field alone |
| Conditionals.SpoiltIff | src/prepstdreply.c:740-757 | a parameter with other characters makes the directive none, unless one in front of it decides |
| Conditionals.OtherFields | src/prepstdreply.c:759-774 | a test stays as it is when the fields it is not on change |
| Conditionals.ParamLetters | src/prepstdreply.c:744-750 | the characters of a parameter, spelled out |
| Conditionals.EveryOtherPart | src/prepstdreply.c:879-902 | of the parts of a conditional every other one is text, from the first or the second on |
| Conditionals.DirectiveWords | src/prepstdreply.c:845-878 | the words of the eight directives |
| Conditionals.SpelledOut | src/prepstdreply.c:1078-1087 | a directive that is not handled stays as it is written |
| Conditionals.PlainLine | src/prepstdreply.c:1274-1502 | a line without a percent sign comes out as it is, blank or not, unless it is skipped, and then not at all |
| Conditionals.ListText.HandleIf | src/prepstdreply.c:715-799 | a conditional is pushed, with `skip` set only if nothing was skipped before and the test fails; with one parameter a live test is handled exactly if the action, reason or type it names is set, and is true exactly if they differ in case at most, or for a control file if there is one, the reverse if negated |
| Conditionals.ListText.HandleElse | src/prepstdreply.c:879-902 | else toggles the innermost entry, and `skip` stays the outermost dead one |
| Conditionals.ListText.HandleEndif | src/prepstdreply.c:903-929 | endif pops the innermost entry, and `skip` stays the outermost dead one |
| Conditionals.ListText.ProcessLine | src/prepstdreply.c:1274-1502 | cutting out the incisions of a line leaves the text of the machine's run over it; a line whose end is skipped with nothing left of it, or of which only blanks and directives are left, does not come out |
| Conditionals.PiecesOfRun | src/prepstdreply.c:1366-1465 | line by line or at once, the same text is let through |
| Conditionals.RenderText | src/prepstdreply.c:1366-1465 | what is let through of a whole text, over as many lines as it has, adds up to its recursive meaning, under the same condition on live tests only; the lines that come out are those pieces but for the omitted ones |
| WordWrap.WrappedKeepsWords | src/prepstdreply.c:1208-1285 | greedy wrapping cuts the word sequence into groups in order; a line of several words is shorter than the width, and with the next word no line would be |
| WordWrap.WrapText.GetLine | src/prepstdreply.c:1112-1502 | each call emits as many of the remaining words as stay below the width, one at least, and leaves exactly the others; the paragraph is over when none remain |
| WordWrap.WrapText.Refill | src/prepstdreply.c:1140-1169 | reading ahead keeps the words still to come |
| WordWrap.Scan | src/prepstdreply.c:1467-1502 | the character loop stops at the end of the line or at the first place where the text is wide enough to be broken at a blank |
| WordWrap.WrapParagraph | src/prepstdreply.c:1112-1502 | a paragraph over all calls comes out as the greedy wrapping of its words |
| Unistr.DecodeOfEncode | src/unistr.c:122-170 | decoding any encoded string gives each character back, or as many question marks as it has octets |
| Unistr.RoundTripIff | src/unistr.c:122-317 | decode of encode is the identity exactly on strings over 1..0x7FF, 0x1000..0xFFFF, 0x40000..0x1FFFFF, 0x1000000..0x3FFFFFF, 0x40000000..0x7FFFFFFF and 0 |
| Unistr.RoundTripsMeaning | src/unistr.c:152-156 | those are the characters of one octet and those with a data bit in the leading one |
| Unistr.EncodedForms | src/unistr.c:276-312 | the one to six octets of a character, by its size |
| Unistr.ReencodeIff | src/unistr.c:122-317 | octets survive decoding and encoding exactly if each leading octet has a data bit, is not 0xC1, and has all its followers |
| Unistr.WellFormedIff | src/unistr.c:248-317 | those octets are exactly the encodings of strings of round-tripping characters |
| Unistr.ReencodeBefore | src/unistr.c:122-317 | a sequence that is cut short does not survive decoding and encoding, whatever completes it behind the octets |
| Unistr.BehindUnread | src/unistr.c:157-168 | what is behind the octets does not matter if no sequence reaches there, or if a terminator is there |
| Unistr.UniStr.AppendChar | src/unistr.c:98-105 | appending to the growable array, which doubles when full |
| Unistr.UniStr.AppendUtf8 | src/unistr.c:122-170 | the decoding loop appends the decoding of the octets, reading the last sequence to its end behind them, whatever is there |
| Unistr.UniStr.ToUtf8 | src/unistr.c:248-317 | the second pass fills the buffer sized by the first exactly with the encoding and a NUL; an empty string if a character is out of range |
| Unistr.UniStr.Size | src/unistr.c:255-275 | the sizing pass counts what the writing pass writes |
| HeaderWords.UnescapeEscape | src/unistr.c:336-596 | "Q" decoding undoes the escaping of header texts on every byte sequence |
| HeaderWords.ParseEncoded | src/unistr.c:407-486 | every encoded word whose parts are free of '?' is taken apart into those parts |
| HeaderWords.HeaderRoundTrip | src/unistr.c:407-606 | header decode of header encode is the trimmed string exactly if that is well-formed UTF-8 of round-tripping characters, as clean strings always are, whatever is in memory behind the decoded word |
| HeaderWords.DecodeBOfText | src/unistr.c:357-401 | the "B" decoder gives back all octets from their base64 form, whether it is broken into lines or not |
| HeaderWords.Base64RoundTrip | src/unistr.c:357-531 | an encoded word with the base64 form of any octets in UTF-8, as it stands if it is one line, reads as these octets exactly if they are well-formed |
| HeaderWords.WordsAndGaps | src/unistr.c:492-531 | a header of plain and encoded words in any order reads as their texts with the gaps between them, but for those between two encoded words |
| HeaderWords.InAscii | src/unistr.c:472-480 | octets in US-ASCII are themselves, or question marks from 128 on |
| HeaderWords.InLatin1 | src/unistr.c:472-480 | octets in ISO-8859-1 are themselves, a NUL is a question mark |
| HeaderWords.HexPlaces | src/unistr.c:320-353 | the digits of escapes are read by their places in "0123456789abcdef" or the same in capitals |
| HeaderWords.OkCharacters | src/unistr.c:532-544 | the characters that stay in a header as they are, spelled out |
| HeaderWords.CleanText | src/unistr.c:493-529 | a clean text is read as it stands, gaps included |
| HeaderWords.DecodeQp | src/unistr.c:336-354 | decode_qp fills a buffer of the size of its input with the "Q" decoding |
| HeaderWords.DecodeBase64 | src/unistr.c:357-402 | decode_base64 is a run of the accumulator of `Base64` |
| HeaderWords.HeaderToUtf8 | src/unistr.c:407-529 | on every header, words and gaps come out by the rule that a gap counts unless it is between two encoded words, in UTF-8 with a NUL; a word that ends within a character takes what is behind it in memory |
| HeaderWords.Utf8ToHeader | src/unistr.c:550-606 | a clean string comes out trimmed, any other as one encoded word |
| Skin.SkinnedNotLonger | src/find_email_adr.c:87-181 | the result is never longer than the input, so the buffer is large enough |
| Skin.TakeBounded | src/find_email_adr.c:99-176 | no round of the loop writes more than it reads, the blank it puts off included |
| Skin.PhraseDropped | src/find_email_adr.c:76-181 | of a phrase and a bracketed address without special characters, exactly the address is left, whatever blanks, " at " or " @ " the phrase has |
| Skin.CommentDropped | src/find_email_adr.c:53-181 | of an address and a comment behind it, nested comments and escapes included, exactly the address is left |
| SkinLists.ListKept | src/find_email_adr.c:79-181 | of a list of addresses, bare or bracketed behind phrases, each followed by words, quoted strings and comments, exactly the addresses are left, in order, with their commas |
| SkinLists.QuotesDropped | src/find_email_adr.c:107-124 | a quoted string in an address stands for its text, whatever is in it |
| SkinLists.SpokenAt | src/find_email_adr.c:126-135 | " at " and " @ " stand for the "@" between the parts of an address |
| Skin.SkipComment | src/find_email_adr.c:53-73 | skip_comment terminates behind the closing parenthesis, counting nesting and escapes |
| Skin.Skin | src/find_email_adr.c:79-181 | skin terminates on every string and writes its result within the buffer |
| AddressFiles.LinesOfText | src/mlmmj-send.c:701-721 | a file of requeued addresses is read back as those addresses |
| AddressFiles.AddressFile.GetAddrs | src/getaddrsfromfd.c:13-60 | the reader appends the next lines to the list, up to the limit, and leaves exactly the others for the next call |
| Distribution.Delivery.RequeueMail | src/mlmmj-send.c:677-726 | the addresses behind the failing one, then that one, are appended to the requeue file; every address stays in one place |
| Distribution.Delivery.SendManyList | src/mlmmj-send.c:728-776 | addresses with '@' up to the first failure or signal are done with, and exactly the rest is requeued |
| Distribution.Delivery.SendVerp | src/mlmmj-send.c:524-632 | all addresses of the batch are done with, or none |
| Distribution.Delivery.SendBatch | src/mlmmj-send.c:1333-1360 | with VERP one mail goes to all addresses of the batch and all are done with, or none goes out and all are requeued; without, one mail goes to each address up to the first failure, and the others are requeued |
| Distribution.ReceiversAre | src/mlmmj-send.c:524-600 | those mails go to exactly the addresses with an "@", in order |
| Distribution.SendManyFd | src/mlmmj-send.c:634-675 | a file sent to in batches leaves every address done with or requeued |
| Distribution.OmitFrom | src/mlmmj-send.c:1316-1332 | the omitted address is taken out once of what has just been read, and nothing else |
| Distribution.Distribute | src/mlmmj-send.c:1300-1404 | for any subscriber files, batch limit, omitted address and outcomes, every address is done with or requeued, as often as it was held |
| Distribution.ResendRequeue | src/mlmmj-maintd.c:463-512 | a visit of the requeue directory keeps every address in one place, and leaves nothing to send if nothing fails in it |
| Distribution.LifeOfMail | src/mlmmj-send.c:524-1404 | over a distribution and any number of resend runs, each '@'-bearing address other than the omitted one is acknowledged or waits in a requeue file, in all as often as the subscriber files hold it; an omitted address held once gets nothing; a resend run without failures delivers all that waits; no mail goes to more addresses than the limit, and without VERP each goes to one |
| Distribution.Undisturbed | src/mlmmj-send.c:1300-1404 | if nothing fails, every '@'-bearing address but the omitted one is acknowledged as often as it is held, and nothing is queued |
| SmtpPayload.StreamDelivers | src/mail-functions.c:148-186 | a receiver that ends at the first line that is a dot gets the streamed mail and one empty line exactly if the mail ends in LF and does not begin with a dot |
| SmtpPayload.PreparedIsStream | src/mail-functions.c:148-265 | what is sent from memory, the bytes never written for an unfinished last line included, is the streaming writer's output, with or without To: line, exactly if the mail ends in LF, no header line but the first begins with a dot, and no NUL in a body line is followed by something else |
| SmtpPayload.PreparedDelivers | src/mail-functions.c:188-265 | from memory a mail is received intact exactly if no header line begins with a dot, no NUL in a finished body line is followed by something else, and an unfinished last line happens to be in the memory sent for it |
| SmtpPayload.AlwaysDelivered | src/mail-functions.c:188-265 | it is received intact whatever that memory holds exactly if it also ends in LF |
| SmtpPayload.ToIsHeaderLine | src/mail-functions.c:173-180 | writing the To: line into the stream is streaming the mail that has this line at the end of its header, with NULs in it or not |
| SmtpPayload.DeliversWithTo | src/mail-functions.c:148-265 | with a To: line the receiver gets the mail that has it, from the stream and from memory, exactly on the same conditions as without |
| SmtpPayload.ReplyToArrives | src/mail-functions.c:307-330 | a Reply-To line in front arrives as a header line more, and changes nothing about what arrives behind it |
| SmtpPayload.StreamedArrives | src/mlmmj-send.c:317-362 | what the streaming form writes when no write fails is received, up to its final dot, as the mail with its Reply-To and To: lines exactly on the condition of the stream |
| SmtpPayload.PreparedArrives | src/mlmmj-send.c:317-362 | and what is sent from memory exactly on that for prepared mails |
| SmtpPayload.PassesAgree | src/mail-functions.c:200-262 | what the sizing passes count exceeds what the filling passes write by the unfinished last line |
| SmtpPayload.CopiedAt | src/mail-functions.c:208-216 | in a line copied by strncpy every byte is there up to the first NUL, and only NULs behind it |
| SmtpPayload.WriteMailbody | src/mail-functions.c:148-186 | the loop writes lines with CRLF, doubled dots and the To: line in its place, unless a write fails |
| SmtpPayload.GetPreppedHdrs | src/mail-functions.c:188-219 | the header fills its buffer exactly; NULL without an empty line, or with a NUL in front of it |
| SmtpPayload.GetPreppedMailbody | src/mail-functions.c:221-265 | the body buffer holds the copied lines with doubled dots and, behind them, as many bytes that are never written as an unfinished last line has |
| SmtpPayload.SendData | src/mlmmj-send.c:317-362 | the Reply-To line, the prepared header, the To: line and the prepared body, or the streamed mail, and then the final dot; all of it and `ok` if no write fails, otherwise no more than the Reply-To line, parts of it and the dot |
| SmtpPayload.SendMail | src/mlmmj-send.c:996-1024 | a mail up to the limit is prepared in memory and sent from there, a longer one is streamed; if no write fails this succeeds exactly if the mail is streamed or can be prepared, and what is received then is the mail with its Reply-To and To: lines, exactly on the condition of the form chosen |
| Subscription.FindSubscriber | src/subscriberfuncs.c:62-111 | the offset of the first line equal to the address but for case, or -1 |
| Subscription.FoundAsSpelled | src/subscriberfuncs.c:92 | it is the first line that differs from the address in the case of letters at most, told by the two alphabets |
| Subscription.FoundInAnyCase | src/subscriberfuncs.c:92 | the same line is found for an address with any of its letters in the other case |
| Letters.SameIff | src/subscriberfuncs.c:92 | strings compare equal, and are the same in lower case, exactly if they differ in letters that are at the same place of "A..Z" and "a..z" |
| Letters.LowerLetters | src/mlmmj-unsub.c:632-638 | each of these 26 letters has its small one, and all other characters stay |
| Subscription.IsSubbedIn | src/subscriberfuncs.c:113-154 | whether any file of the directory has such a line, in any reading order |
| Subscription.ListDir.IsSubbed | src/subscriberfuncs.c:156-184 | the version of a subscription by the directories the address is in |
| Subscription.Unsubscribe | src/mlmmj-unsub.c:252-291 | the new file is the old one without the first line with the address; -1 if there is none, or if it is a last line without newline |
| Subscription.UnsubscribeType | src/mlmmj-unsub.c:399-516 | the directory loop takes that line out of every file and removes files left empty, whatever the files hold |
| Subscription.RemovedKeeps | src/mlmmj-unsub.c:355-519 | unsubscribing leaves the lines of all other addresses in order, and takes the address out of the directory exactly if each file has it on one line at most, which is ended |
| Subscription.FilesGone | src/mlmmj-unsub.c:355-519 | the files that go are those that hold nothing but the address, on an ended line; of the others each loses the first line with it |
| Subscription.AddedKeeps | src/mlmmj-sub.c:593-637 | subscribing leaves all other lines as they are exactly if the file for the first character ends in a newline; in a proper directory without the address it is there once then |
| Subscription.ListDir.Unsub | src/mlmmj-unsub.c:658-705 | a run of mlmmj-unsub takes the address out of the chosen version, or of all; the three directories are then those before with that address removed from the chosen ones |
| Subscription.ListDir.Subscribe | src/mlmmj-sub.c:794-858 | a completed run ends with is_subbed equal to the request, but in one case; other addresses' lines stay, nomail does not come to stand beside another version, no duplicate arises; it is refused exactly for what has no "@" or begins with the list address in any case, and fails exactly if a line is missing and cannot get a file |
| Subscription.CaseMakesNoDifference | src/mlmmj-sub.c:765-771 | both programs leave the same directories for an address and for the same with any of its letters in the other case |
| BounceMachine.UnsubSafe | src/mlmmj-maintd.c:708-814 | over any run: an address is unsubscribed only with no probe out, bouncelife + WAITPROBE after the time read from its record, and so after the bounce that began it unless the record says an earlier time, and if probed only after the last probe bounced or could not be sent |
| BounceMachine.NeverTooSoonIff | src/mlmmj-maintd.c:757-766 | stopped anywhere and followed by a wait of any length, a run allows no unsubscription before bouncelife + WAITPROBE exactly if none of its records begins with too early a time |
| BounceMachine.OwnAnswerIff | src/mlmmj-bounce.c:325-335 | the answer on which a probed address can be unsubscribed is that of a probe for this very record exactly if it is no late bounce |
| BounceMachine.NeverAstrayIff | src/mlmmj-maintd.c:708-814 | stopped anywhere and followed by a wait of any length, a run only allows unsubscriptions founded on the record's own probe exactly if it has no late bounce |
| BounceMachine.UnsubForOwnProbe | src/mlmmj-maintd.c:708-814 | the direction that gives safety: without late bounces the probe was sent for this very record |
| BounceMachine.StaleLeadsAstray | src/mlmmj-bounce.c:325-335 | the other direction: after a late bounce, time alone leads to an unsubscription the record's own probes give no reason for |
| BounceMachine.LateBounceExample | src/mlmmj-bounce.c:325-335 | a run with such a bounce, with the times the programs use |
| BounceMachine.SinceBirth | src/mlmmj-maintd.c:545-814 | a record in the directory has been there since its first bounce, and says what that wrote |
| BounceMachine.ProbedAndNotOut | src/mlmmj-maintd.c:545-666 | a probed record without a probe file has had its last probe answered |
| BounceDirectory.FirstBounceOfRecord | src/mlmmj-bounce.c:379-388 | with a proper number the time written with the first bounce is read from the record, or none if the comment sign is cut off |
| BounceDirectory.ReadableIff | src/mlmmj-bounce.c:373-386 | all times of a length are read back from the records of a number exactly if it has no ':', '#' or line end and leaves the comment sign within the buffer |
| BounceDirectory.OtherTime | src/mlmmj-maintd.c:745-757 | from any other number maintenance reads the same time at all times, or none |
| BounceDirectory.PlantedTime | src/mlmmj-maintd.c:745-757 | any time behind a ':' in the number is read in place of that of the bounce |
| BounceDirectory.UnsubAddressIff | src/mlmmj-maintd.c:774-781 | the address unsubscribed is the one that bounced exactly if the record name has a single '=' |
| BounceDirectory.ReaddressedBack | src/mlmmj-send.c:1211-1218 | the probe file removed when a probe cannot be sent is the one do_probe has made |
| Decimal.InTens | src/mlmmj-bounce.c:379-388 | times are written to the base ten |
| BounceDirectory.BounceDir.RecordBounce | src/mlmmj-bounce.c:337-395 | a bounce of an address that is subscribed to the list in any version, with any number, is an event of the machine, on the files, with the time maintenance will read; any other changes nothing |
| BounceDirectory.BounceDir.RecordProbeBounce | src/mlmmj-bounce.c:325-335 | a bounced probe removes the probe file, whichever record it was sent for, and no other |
| BounceDirectory.BounceDir.CleanEntry | src/mlmmj-maintd.c:545-587 | a probe older than 43200 seconds goes, with its record and message, and nothing else; a younger one changes nothing |
| BounceDirectory.BounceDir.UnsubEntry | src/mlmmj-maintd.c:708-814 | an address is unsubscribed, and its record and message removed, if and only if the first bounce its record tells of is bouncelife + 43200 seconds ago, which is when the machine's condition holds |
| BounceDirectory.BounceDir.ProbeEntry | src/mlmmj-maintd.c:618-667 | a record without a probe gets one with the time in it, which is removed again if it cannot be sent; no other file changes |
| BounceDirectory.BounceDir.CleanNoLongerBouncing | src/mlmmj-maintd.c:545-587 | the loop over the directory looks at every probe, and leaves the records without one alone |
| BounceDirectory.BounceDir.UnsubBouncers | src/mlmmj-maintd.c:708-814 | the loop over the directory tries every record without a probe, and makes no probe |
| BounceDirectory.BounceDir.ProbeBouncers | src/mlmmj-maintd.c:618-667 | the loop over the directory sends a probe for every record without one, and neither adds nor removes a record |
| BounceDirectory.BounceDir.DoMaintenance | src/mlmmj-maintd.c:1032-1041 | the three steps are a run of the machine in which every probe is looked at, every record without a probe is tried for unsubscription and, if it is still there, sent a probe; every unsubscription in it is founded |
| Verp.IndexOfArchived | src/mlmmj-send.c:76-102 | the index of a mail is recovered from its place in the archive and in the requeue directory |
| Verp.VerpRoundTrip | src/mlmmj-send.c:104-196 | the bounce address of an archived or requeued mail is read back to the same index and recipient exactly if the delimiter, '/', case and '=' conditions hold |
| Verp.NumberRead | src/listcontrol.c:147-188 | not only numbers are read back: every word without '-' and '/' is, but for the three that stand for confirmations and probes |
| Verp.PlantedBounce | src/mlmmj-bounce.c:337-386 | with the number "1:0", the bounce of any address that is read back leads to a record that can be unsubscribed at the next maintenance |
| Verp.DelimiterFound | src/mlmmj-process.c:409-433 | addrmatch finds the part behind the delimiter exactly if the delimiter occurs first where it was put |
| Verp.ListItself | src/mlmmj-process.c:391-407 | the list address in any case, and nothing else, matches without a part of its own |
| Verp.MatchOnly | src/mlmmj-process.c:409-433 | whatever matches with one is the list address in any case with the delimiter and that part in front of its "@" |
| Verp.BouncesParsed | src/listcontrol.c:628-642 | the bounces command is recognised and its parameter split behind the number, '-' in the address or not |
| Verp.RecipientRestored | src/mlmmj-bounce.c:278-346 | the recipient is restored exactly if it is lower-case and has no '=' behind its '@' |
| Verp.BounceFromAdr | src/mlmmj-send.c:104-196 | the printed bounce address, with or without a static bounce address, fits the buffer computed for it |
| Verp.StaticFound | src/mlmmj-send.c:177-180 | with a static bounce address bounces come there: addrmatch finds behind its delimiter the name of the list and what the list itself would get |
| Verp.BouncedInAnyCase | src/mlmmj-bounce.c:278-346 | mlmmj-bounce takes an address in any case for the same, and leaves no capital letters |
| Verp.AddrMatch | src/mlmmj-process.c:391-436 | addrmatch with its three ways to fail |
| Verp.ListControl | src/listcontrol.c:147-188 | the loop over the command table takes the first command the string begins with, and checks its parameter |
| Commands.Subscribe | src/listcontrol.c:83-111 | the subscribing commands, with and without a version, are each taken for themselves |
| Commands.Unsubscribe | src/listcontrol.c:83-111 | the unsubscribing ones |
| Commands.Asking | src/listcontrol.c:83-111 | the ones that ask for help or a list |
| Commands.Deciding | src/listcontrol.c:83-188 | those of bounces, moderation and the archive, with any parameter free of slashes |
| Commands.ReleaseAndReject | src/listcontrol.c:83-188 | release and reject, with any such parameter |
| Commands.ConfirmSubscribing | src/listcontrol.c:83-188 | the confirmations of subscriptions to a version |
| Commands.ConfirmUnsubscribing | src/listcontrol.c:83-188 | and of leaving one |
| Commands.ConfirmNormal | src/listcontrol.c:83-188 | those without a version are taken for themselves exactly if the parameter does not begin with the word for one, and is free of slashes |
| Verp.MlmmjBounce | src/mlmmj-bounce.c:278-346 | lower-casing in place and restoring the '@' |
| Verp.HandleBounce | src/listcontrol.c:628-650 | the programs chained together give the index and recipient that `VerpRoundTrip` is about, or reject the bounce |

## Left out

- foot_filter's MIME tree walk, header handling, saving and comparing callbacks, `lookback`, `pad`, `pos_of` and `decoding_until_eol`: the buffer and codecs they use are modelled.
- The line-ending shim under encodechar and decodechar (`put`, `get`), and a signed `char` on which byte 0xFF is EOF.
- MailBuffer.MailBuffer.ShuntToDisk: the temporary file is a sequence of bytes with a position; opening and seeking are not modelled, nor that it is opened in a mode, "rw", in which writing may fail.
- Overlapping replacements, which the program does not make.
- Conditionals.RenderText: texts with a live test on an action, reason or type that is not set are left out, since such directives stay in the text; so are texts with directives of too few or too many parameters.
- Conditionals.ListText.HandleIf: a negative test on an action, reason or type takes one parameter in the code, which loses the rest of the line if there are more; a last parameter that is empty is not looked at there.
- Conditionals.TestsItsField: for such a negative test with several parameters it says what the model does, which looks at all of them.
- Conditionals.ListText.ProcessLine: a directive that stays in the text stays there as it was spelled; in the code, a live test with several parameters on something that is not set ends the line behind its first parameter, and the last '%' of a directive that stays may begin another one with the text behind it.
- The other directives and escapes of list texts, `$...$` substitution, formatted sources with prefixes and suffixes, peeking at blank lines.
- WordWrap.WrapParagraph: plain ASCII words with single spaces, wrapindent 0 and wrapping by words; char and user modes, tabs, runs of blanks and zero-width characters are left out.
- HeaderWords.HeaderToUtf8: conversion by iconv is a parameter; so is what unistr_append_utf8 finds behind the buffer of a word in UTF-8 that ends within a character, where reading might also end the program.
- unistr_escaped_to_utf8 and unistr_dump.
- find_email_adr's splitting of a header at commas; Skin takes one piece of it.
- Distribution.LifeOfMail: writing the requeue file succeeds, and a program that stops between renaming the requeue file and sending is only modelled as a child that does not come up; its addresses stay in the renamed file. NUL characters in addresses and sending without an archive are left out.
- The SMTP dialogue is a choice between done and failed for each address or batch; relay lookup, EHLO and QUIT are left out.
- SmtpPayload.GetPreppedHdrs: that the file is followed by a NUL in memory is taken for granted.
- Subscription.ListDir.Subscribe: one run at a time, forks and system calls succeed, addresses are one line, the files end in newlines and hold no address twice, and the request is neither moderated nor to be confirmed; locks are left out.
- Subscription.UnsubscribeType: no file has a left-over ".new" file beside it, which would be overwritten; and the loop visits each file once, while readdir may give a renamed file again, from which a second line would be taken.
- BounceDirectory.BounceDir.RecordBounce: record names end neither in "-probe" nor in ".lastmsg", with which they would pass for probe files or saved messages, and hold no '@'; times that strtol cuts off at the limits of a long are not modelled.
- The parsing of delivery status notifications, and sub/unsub confirmations that bounce.
- Verp.VerpRoundTrip: numeric indexes, no static bounce address (for which see StaticFound), a list address with one '@'; probes are covered only as far as `BounceDirectory` goes.
- bouncemail, which takes an address apart differently, at its last '-'.
- Digests, moderation, access rules, index files, the web interfaces, shell scripts and documentation.

# A verified model of E-MailRelay's algorithms

This Dafny project models the self-contained algorithms of E-MailRelay, and the protocols built on them, and
proves what they are for: codecs that undo each other, a digest that is the standard's although its words hold
junk, a file editor that loses nothing, an authentication dialogue that succeeds exactly when it should, a split
that conserves recipients.

| file | what it models |
|---|---|
| `Punycode.dfy`, `Idn.dfy` | the domain name encoder |
| `Rfc3492.dfy` | the decoder and the bias adaptation of RFC 3492, which are its specification |
| `Rfc1321.dfy`, `Md5.dfy` | MD5 in 64-bit words, against MD5 as RFC 1321 defines it; streaming and saved states |
| `Md5Example.dfy` | a message for which streaming is not MD5, with its numbers |
| `HashState.dfy`, `Hash.dfy` | state strings, HMAC, and HMAC with masked keys |
| `Rfc2104.dfy`, `Rfc2195.dfy` | HMAC with MD5 and the CRAM-MD5 response, as the two standards define them |
| `MapFile.dfy` | key-value files: reading, editing in place, and percent expansion |
| `Base64.dfy`, `Convert.dfy` | base64, and UTF-8 to and from UCS-4 and UTF-16 (RFC 3629, RFC 2781) |
| `Rfc4648.dfy` | the base64 of RFC 4648 |
| `SecretsFile.dfy` | the secrets file and its indexes, against a scan of the file |
| `Cram.dfy`, `SaslServer.dfy`, `SaslClient.dfy`, `Sasl.dfy` | challenges and responses, the two sides of authentication, and their dialogue |
| `SplitFilter.dfy`, `MxLookup.dfy` | splitting a message by domain, and the MX lookup with several nameservers |
| `Date.dfy`, `DateTime.dfy` | stepping dates, the cached weekday, the search for a UTC time, intervals |
| `Str.dfy`, `Wrappers.dfy` | the string helpers of `src/glib/gstr.cpp` and `src/glib/gstringtoken.h`, and optional values |

Code that changes things step by step is a class or a method here, with its loops and their invariants; each is
proved against a function or predicate, and the theorems are about that. Exceptions and error returns are
`None` or a false result. In `Convert` and `Idn` bytes are integers below 256 and masks and shifts are the
divisions and products they stand for; in `Md5`, `Hash` and `Base64` they are bit-vectors; elsewhere text is
`string`. The modules named after a standard are written from the standard alone, with its numbers and tables: they
import nothing from the modules that are compared with them. Run `dafny verify dfyconfig.toml` to check the whole
project.

## What the code does that one might not expect

- The list of code points in the domain name encoder is not cleared between labels. A domain with two or more
  labels that are not seven-bit makes encode() throw if any of them but the last has a seven-bit byte, and is
  silently encoded wrong otherwise: `Idn.Encode`, `Idn.TwoNonAsciiLabels`, `Idn.LetterBeforeNonAscii`. The
  check that throws is the one whose comment says that it is never got to.
- Surrogates are joined with an or, not a sum, so that code points of even supplementary planes come back one
  plane too low: `Convert.RoundTripUtf16`, `Convert.EvenPlaneIsLost`.
- `u8in()` accepts four-byte sequences above 0x10FFFF: `Convert.ValidMeetsGrammar`, `Convert.OutOfRangeIsValid`.
- The streaming digest adds one final block whatever the residue. The class comment in `src/glib/gmd5.h` promises
  equality for all lengths; it holds for residues of up to 55 bytes (`Md5.ValueIsMd5`), fails for 56 zero bytes
  (`Md5Example.StreamingIsNotMd5`), and for each length with a longer residue is right for messages of one digest
  at most (`Md5.AtMostOneDigest`). Masked and plain HMAC agree all the same, because both stream:
  `Hash.MaskedIsPlain`.
- The documentation of map files (`src/glib/gmapfile.h:51-57`) excludes more values than the code loses: values
  with blanks are quoted and survive as they are. `MapFile.RecoveredIffTransparent` gives the exact rule.
- A later MX lookup does not put back nameservers that an earlier one disabled, though it counts failures from
  zero: `MxLookup.OneStaysEnabled`, `MxLookup.TwoLookupsDisableBoth`.
- `Date::check()` lets through the 31st of any month; stepping forward and back is still exact except from the
  first day past the end of a month: `Date.NextOfPrevious`, `Date.ThirtyFirstOfApril`. There are no leap years
  before 1800, which check() does not let through: `Date.NextDayNumber`.
- A split that fails leaves the messages that it has already made, so that their recipients are in two:
  `SplitFilter.FaultLeavesTwice`.
- A server that is given responses without an accepted init() takes them for those of LOGIN, so that it is left to
  its caller to ask for one first: `SaslServer.LoginWithoutInit`.
- An MX lookup for an empty domain reports its error for the message of the lookup before:
  `MxLookup.EmptyDomain`.
- A remembered timezone offset can give an answer where a search throws, close to the epoch only:
  `DateTime.MemoMakesNoDifference`.

## Model

| member | source | states |
|---|---|---|
| `Punycode.IntegerUndoesDigits` | src/glib/gidn.cpp:156-166 | the generalized variable-length integer of section 6.2 of RFC 3492 reads back exactly the delta that the digit loop wrote, whatever follows it, for every delta, bias and position |
| `Punycode.AdaptIsRfc` | src/glib/gidn.cpp:177-185 | the bias adaptation of the encoder is that of section 6.1 of RFC 3492, which module Rfc3492 writes out with numbers of its own |
| `Punycode.ThresholdIsRfc` | src/glib/gidn.cpp:158-161 | the clamped threshold is the one of section 6.2 of RFC 3492, for every position and bias |
| `Punycode.DigitByteIsLower` | src/glib/gidn.cpp:135-166 | the digits are written as lower-case letters and decimal digits, which a decoder cannot tell |
| `Punycode.DecodeEmitted` | src/glib/gidn.cpp:139-174 | a list of deltas written one after another, with the bias adapted after each, is taken apart again by the decoder of the standard, which adapts by its own function in step |
| `Punycode.ScanDecodes` | src/glib/gidn.cpp:151-173 | one pass over the list for one code point inserts each occurrence where it stood: the decoder moves from the code points below n to those up to and including n |
| `Punycode.RoundsDecode` | src/glib/gidn.cpp:139-174 | over all passes the decoder ends with the whole list, because at each pass its output is the sublist of code points below n and h is the size of that sublist |
| `Punycode.RoundsCount` | src/glib/gidn.cpp:139-174 | as many deltas are written as there are code points left to handle, so that h ends at the size of the list |
| `Punycode.DecodeCode` | src/glib/gidn.cpp:127-174 | basic code points, delimiter and digits together: the decoder returns the list whenever the copied basic code points are those of the list |
| `Punycode.LabelRoundTrip` | src/glib/gidn.cpp:123-175 | for every list of code points, of any length, the decoder of RFC 3492, with a module, numbers and adaptation of its own, undoes the encoder exactly |
| `Punycode.DecodedLength` | src/glib/gidn.cpp:127-174 | what the decoder returns for a code that holds extra code points is longer than the label, which is how a second label goes wrong |
| `Idn.OverflowMeansOverflow` | src/glib/gidn.cpp:221-226 | check() throws exactly when a + b * c does not fit in 32 bits |
| `Idn.AdaptBias` | src/glib/gidn.cpp:177-185 | the loop of adapt() stops and computes the bias of section 6.1 of RFC 3492, as module Rfc3492 has it, without wrapping, for every 32-bit delta |
| `Idn.IdnImp.OutputInteger` | src/glib/gidn.cpp:156-166 | the digit loop stops within 32-bit arithmetic, uses digits below 36 only and appends the digits of delta |
| `Idn.IdnImp.MinElement` | src/glib/gidn.cpp:141-145 | the element found has the least code point that is not below n, if there is one |
| `Idn.IdnImp.OutputScan` | src/glib/gidn.cpp:151-173 | the inner loop appends the digits for its occurrences of n, and no check fires while the decoder could follow a list of at most 3854 code points |
| `Idn.IdnImp.OutputDeltas` | src/glib/gidn.cpp:136-174 | the outer loop ends and appends the digits of all rounds; it gets to its end only if h can reach the size of the list, and throws for no list that fits and where it can |
| `Idn.IdnImp.OutputPunycode` | src/glib/gidn.cpp:123-175 | appends the label's code points to the list that is never cleared, and the code of the whole list to the output; it throws whenever the list holds more basic code points than the label, and for no other list of at most 3854 code points up to 0x10FFFF |
| `Idn.IdnImp.EncodeLabel` | src/glib/gidn.cpp:107-119 | a seven-bit label is copied; any other gets the xn-- prefix and a code, or an exception when the list so far holds a basic code point, and within the limits only then |
| `Idn.IdnImp.EncodeDomain` | src/glib/gidn.cpp:102-121 | the labels of the domain are encoded in turn and joined by single dots; it throws if one of them finds a basic code point in the list, and within the limits only then |
| `Idn.LabelsOfJoined` | src/glib/gidn.cpp:107-119 | the labels of a joined string are the labels that were joined, so that a reader finds each of them |
| `Idn.LabelsMean` | src/glib/gidn.cpp:107 | a domain is split at every dot, and runs of dots count as one |
| `Idn.JoinedOneMore` | src/glib/gidn.cpp:107-110 | one dot is written between two labels, and none before the first or after the last |
| `Idn.FirstIsCorrect` | src/glib/gidn.cpp:113-118 | the first label that is not seven-bit is one that a reader gets back |
| `Idn.LabelReadsBack` | src/glib/gidn.cpp:123-175 | a label met when the list has no basic code point reads back as all the code points of the list up to and including its own |
| `Idn.LaterIsWrong` | src/glib/gidn.cpp:107-133 | a later label that is not seven-bit never is, because the code points of the earlier one are still in the list |
| `Idn.CorrectIffOneNonAscii` | src/glib/gidn.cpp:102-135 | every label of a domain reads back as it was if and only if at most one label is not seven-bit |
| `Idn.EncodedReadBack` | src/glib/gidn.cpp:102-135 | of any domain that can be written, every seven-bit label reads back as it was and every other one as the code points of all such labels so far |
| `Idn.TwoNonAsciiLabels` | src/glib/gidn.cpp:89-135 | encode() returns for two labels of one accented letter each, and what it returns does not read back |
| `Idn.LetterBeforeNonAscii` | src/glib/gidn.cpp:139-145 | with a seven-bit letter in the first of them encode() throws, at the check that is said never to be got to |
| `Idn.Encode` | src/glib/gidn.cpp:89-95 | encode() as a whole: it throws whenever a label that is not seven-bit, other than the last such, has a seven-bit byte, and for no other domain of at most 3854 bytes with code points in range; when it returns, a reader with the decoder of RFC 3492 gets back all labels if and only if at most one is not seven-bit, and for each such label all the code points so far |
| `Idn.IdnImp.CopySevenBit` | src/glib/gidn.cpp:127-130 | copies the seven-bit bytes of the label, which are its basic code points |
| `Idn.IdnImp.OutputBasic` | src/glib/gidn.cpp:127-130 | appends the basic code points, and a delimiter only if there are any |
| `Idn.IdnImp.ParseInto` | src/glib/gidn.cpp:132-133 | appends the code points of the label to the list |
| `Idn.BasicCodePoints` | src/glib/gidn.cpp:127-133 | the basic code points of a label are its seven-bit bytes, so that copying bytes copies code points |
| `Md5.LowRotation` | src/glib/gmd5.cpp:315-321 | rotating a 64-bit word whose high half is junk gives the 32-bit rotation in its low half, for all sixteen shift amounts |
| `Md5.LowOp` | src/glib/gmd5.cpp:308-313 | one operation on 64-bit words agrees in the low halves with the operation of section 3.4 of RFC 1321, through complements and unmasked sums |
| `Md5.Digest.Step` | src/glib/gmd5.cpp:300-306 | updates the register that the permutation names, in step with operation i of the standard |
| `Md5.Digest.Round1` | src/glib/gmd5.cpp:264-271 | the first sixteen operations, with these words, shifts and constants, are those of the standard |
| `Md5.Digest.Round2` | src/glib/gmd5.cpp:273-280 | operations 17 to 32 are those of the standard |
| `Md5.Digest.Round3` | src/glib/gmd5.cpp:282-289 | operations 33 to 48 are those of the standard |
| `Md5.Digest.Round4` | src/glib/gmd5.cpp:291-298 | operations 49 to 64 are those of the standard |
| `Md5.Digest.Add` | src/glib/gmd5.cpp:246-262 | a whole block takes the low halves of the state to what the standard's compression gives |
| `Md5.Digest.Masked` | src/glib/gmd5.cpp:232-244 | the final mask clears the high halves and leaves the low ones |
| `Md5.PaddedSize` | src/glib/gmd5.cpp:459-469 | rounded() and blocks() give the sizes of the padding of section 3.1 of RFC 1321 |
| `Md5.ByteOfPadded` | src/glib/gmd5.cpp:481-507 | every byte that block::x() makes up past the end of the data is the byte of the padded message there |
| `Md5.WordsOfPadded` | src/glib/gmd5.cpp:471-479 | the sixteen words of a block are the words of the padded message |
| `Md5.DigestOf` | src/glib/gmd5.cpp:566-579 | one-shot digest() of any message is MD5 as RFC 1321 defines it |
| `Md5.AddedTwice` | src/glib/gmd5.cpp:528-553 | adding twice is adding the two pieces as one |
| `Md5.CutsDoNotMatter` | src/glib/gmd5.cpp:528-553 | any cutting of the data into pieces leaves the same stream state |
| `Md5.ConsumedIsDigested` | src/glib/gmd5.cpp:542-553 | after add() the state is that of the standard after the whole blocks, and the residue is the rest |
| `Md5.ValueIsState` | src/glib/gmd5.cpp:555-564 | for every message value() gives the state of the standard after the whole blocks and one more |
| `Md5.ValueIsMd5` | src/glib/gmd5.cpp:555-564 | streaming gives MD5 for every message whose length modulo 64 is at most 55 |
| `Md5.ValueIsNotFinished` | src/glib/gmd5.cpp:555-564 | for every other message value() stops one block short: which state it returns, and the compression that the standard goes on to do |
| `Md5.AtMostOneDigest` | src/glib/gmd5.cpp:555-564 | for each length that leaves a residue of over 55 bytes, all messages for which streaming is right have one and the same digest, and all others of that length get a wrong one |
| `Md5.ResumedState` | src/glib/gmd5.h:37-47 | a stream resumed from its state string is the same stream if and only if it has no residue and its counter is below 2^32 |
| `Md5.ResumedValue` | src/glib/gmd5.h:37-47 | saving the state at a block boundary, with the counter below 2^32, and resuming from the string gives the value of all the data, which is MD5 when the residue is at most 55 |
| `Md5.Md5.FromState` | src/glib/gmd5.cpp:516-520 | the constructor resumes from a state string |
| `Md5.Md5.StateOf` | src/glib/gmd5.cpp:522-526 | state() gives the four words and the length, low byte first |
| `Md5.Md5.Add` | src/glib/gmd5.cpp:528-540 | add() is the specified step on state, length and residue |
| `Md5.Md5.Consume` | src/glib/gmd5.cpp:542-553 | the loop uses up the whole blocks and keeps fewer than 64 bytes |
| `Md5.Md5.Value` | src/glib/gmd5.cpp:555-564 | value() makes one final block from the residue |
| `Md5.DigestOfTwo` | src/glib/gmd5.cpp:589-600 | digest2() streams its two arguments |
| `Md5.PredigestOf` | src/glib/gmd5.cpp:602-608 | the state string of one block without its length |
| `Md5.PostdigestOf` | src/glib/gmd5.cpp:610-626 | resumes two streams from a pair of states; a string of another size than 32 is the exception |
| `Md5.PredigestResumed` | src/glib/gmd5.cpp:602-626 | the state after one block, given back its size suffix, resumes as that very stream |
| `Md5.PredigestIsState` | src/glib/gmd5.cpp:602-608 | the pre-digest of one block is the state of the standard after it, written like a digest |
| `Md5.Format` | src/glib/gmd5.cpp:418-422 | the four words as sixteen bytes, which for masked words are the output of section 3.5 of RFC 1321 |
| `Md5Example.StreamingIsNotMd5` | src/glib/gmd5.cpp:555-564 | 56 zero bytes are a message for which streaming does not give MD5 |
| `Md5Example.SecondBlock` | src/glib/gmd5.cpp:555-564 | for that message the block that value() leaves out does change the state |
| `Md5Example.DigestOfMessage` | src/glib/gmd5.cpp:566-579 | the MD5 of 56 zero bytes is e3c4dd21a9171fd39d208efa09bf7883: both blocks are carried through with their numbers, so that the constants, shifts and start values are the standard's |
| `Md5Example.WordsAsListed` | src/glib/gmd5.cpp:264-298 | the word that each operation uses is the one listed for it in section 3.4 of RFC 1321 |
| `Md5Example.LowOrderFirst` | src/glib/gmd5.cpp:471-507 | bytes go into words, and the length into its eight bytes, low-order first |
| `HashState.DecodeEncode` | src/glib/ghashstate.h:112-133 | decoding the string of a state gives the low halves of its values, for any number of values and whatever follows |
| `HashState.EncodeDecode` | src/glib/ghashstate.h:216-248 | encoding undoes decoding, for any string of whole values |
| `HashState.Convert_` | src/glib/ghashstate.h:207-214 | writes the four low bytes at the iterator and leaves the rest of the buffer as it was |
| `HashState.Encode` | src/glib/ghashstate.h:112-121 | the loop over the values fills the string |
| `HashState.EncodeWithSize` | src/glib/ghashstate.h:123-133 | the string ends with the four bytes of the size |
| `HashState.Decode` | src/glib/ghashstate.h:169-175 | decodes values and size of any string, a short one of any length as if zeros followed it |
| `Hash.XorOf` | src/glib/ghash.cpp:26-41 | the loop computes the bytewise exclusive or |
| `Hash.PrintableOf` | src/glib/ghash.cpp:53-67 | the loop computes the lower-case hexadecimal form |
| `Hash.PrintableIsInjective` | src/glib/ghash.cpp:53-67 | different strings print differently, and no printed string holds a space |
| `Hash.MaskedIsPlain` | src/glib/ghash.h:119-139 | HMAC from the masked key equals plain HMAC for every key and every input, of any length |
| `Hash.HmacIsRfc` | src/glib/ghash.h:109-124 | HMAC is that of section 2 of RFC 2104 with MD5, which module Rfc2104 writes out with pads of its own, when neither the text nor a key that is hashed has a residue over 55 bytes |
| `Hash.MaskIsStates` | src/glib/ghash.h:126-133 | a masked key is the two states of the standard's digest after the inner and then the outer padded key |
| `MapFile.SplitJoined` | src/glib/gmapfile.cpp:137-165 | the key of a joined line always comes back, the value as trimming, separators and quotes leave it |
| `MapFile.SplitText` | src/glib/gmapfile.cpp:137-154 | any line of a key, a run of blanks and equals signs, and a value is split into them, without one pair of double quotes |
| `MapFile.SplitBare` | src/glib/gmapfile.cpp:137-154 | a key alone has an empty value |
| `MapFile.JoinText` | src/glib/gmapfile.cpp:156-165 | a joined line is the key, one space and the value, in double quotes if it has blanks and without line-end characters at its end if not |
| `MapFile.ValuedIff` | src/glib/gmapfile.cpp:167-177 | a line has a value if and only if a character other than a hash comes first after blanks and carriage returns |
| `MapFile.CommentedOutIff` | src/glib/gmapfile.cpp:179-189 | a value is commented out if and only if the line is a hash and a character that is no blank, carriage return or hash |
| `MapFile.ItemOfText` | src/glib/gmapfile.cpp:116-135 | what is read from a line with a key and a value, with blanks before them and any white space after |
| `MapFile.ItemOfBareKey` | src/glib/gmapfile.cpp:116-135 | a key alone is read with an empty value, without carriage returns at its end |
| `MapFile.ItemOfComment` | src/glib/gmapfile.cpp:116-135 | nothing is read from a line whose first character after blanks is a hash |
| `MapFile.ReadIsJoined` | src/glib/gmapfile.cpp:116-135 | from any lines exactly the keys on them are read, each with all its values in order joined by commas |
| `MapFile.RecoveredIffTransparent` | src/glib/gmapfile.h:51-57 | a value survives if and only if it is empty, holds a blank, or neither starts with an equals sign, ends with a line-end character nor is quoted already |
| `MapFile.SplitJoin` | src/glib/gmapfile.cpp:137-165 | split() undoes join() exactly for those values |
| `MapFile.PartlyStep` | src/glib/gmapfile.cpp:237-258 | one item replaces the first marked line for its key, or appends one, and touches no other |
| `MapFile.EditedLines` | src/glib/gmapfile.cpp:222-262 | every line after an edit: the first for a key of the map holds the new value, other values are commented out, all other lines stay in place, and missing keys follow in order |
| `MapFile.EditedMeans` | src/glib/gmapfile.cpp:222-262 | every line after an edit in its own terms: as it was, the joined key and new value, or behind exactly one hash |
| `MapFile.ReadEdited` | src/glib/gmapfile.cpp:116-135 | reading the edited lines gives exactly the keys of the map |
| `MapFile.EditThenRead` | src/glib/gmapfile.cpp:222-262 | reading the edited lines gives the map if and only if all its values are transparent |
| `MapFile.EditTwice` | src/glib/gmapfile.cpp:222-262 | a second edit changes no line |
| `MapFile.LinesOfText` | src/glib/gmapfile.cpp:269-273 | lines written with a line end each are read back as they were |
| `MapFile.EditFileThenRead` | src/glib/gmapfile.cpp:222-278 | for any file, re-reading it after editInto() gives the map if and only if every key is one token that does not look like a comment or a mark and every value is transparent and of one line |
| `MapFile.ReadBackMeansGood` | src/glib/gmapfile.cpp:116-135 | a map that is read back had keys and values of that kind, whatever else the file held |
| `MapFile.EditFileTwice` | src/glib/gmapfile.cpp:222-278 | for any file a second editInto() leaves the text unchanged if and only if every line written for the map is one line |
| `MapFile.NoTokenNoRest` | src/glib/gmapfile.cpp:240-257 | with a key that is empty or holds a separator no edit leaves its own result alone: its line is added again each time |
| `MapFile.MapFile.Add` | src/glib/gmapfile.cpp:443-459 | adds, replaces or appends with a comma, and keeps the list of keys |
| `MapFile.MapFile.ReadFromStream` | src/glib/gmapfile.cpp:116-135 | the loop adds the item of every line that has one, in order |
| `MapFile.MapFile.EditInto` | src/glib/gmapfile.cpp:222-278 | marks, rewrites, comments out and writes the lines as specified |
| `MapFile.RewriteItem` | src/glib/gmapfile.cpp:240-257 | the inner loop, with its break, replaces the first match or appends |
| `MapFile.ReadLines` | src/glib/gmapfile.cpp:109-113 | the loop collects every line, a last one without a line end too |
| `MapFile.SingleEscaped` | src/glib/gmapfile.cpp:384-413 | no single percent character is found in a text where all are doubled, and one of each pair is left |
| `MapFile.ExpandEscaped` | src/glib/gmapfile.cpp:373-441 | doubling every percent character protects any text from being expanded |
| `MapFile.ExpandKey` | src/glib/gmapfile.cpp:415-441 | for all texts around it a key between two percent characters is replaced by its value if the map has it, and left alone if not; the text in front only has its doubled percent characters halved, and the text after is expanded in turn |
| `MapFile.ExpandLast` | src/glib/gmapfile.cpp:415-441 | a single percent character without another one after it stays |
| `MapFile.FindSingle` | src/glib/gmapfile.cpp:384-413 | erasing in place passes over the same text as the recursive definition, and stops where it does |
| `MapFile.Expand` | src/glib/gmapfile.cpp:415-441 | replacing in place, with positions that move as the text grows and shrinks, ends and equals one pass from left to right in which values are not looked at again |
| `MapFile.MarkValues` | src/glib/gmapfile.cpp:229-234 | marks the lines that hold values, commented out or not, and leaves the rest |
| `MapFile.CommentOut` | src/glib/gmapfile.cpp:260-262 | the lines still marked become comments |
| `MapFile.WriteLines` | src/glib/gmapfile.cpp:269-273 | writes every line with a line end |
| `MapFile.MapFile.ReadLine` | src/glib/gmapfile.cpp:121-133 | one line adds its item, if it has one |
| `MapFile.ReplaceToken` | src/glib/gmapfile.cpp:426-438 | a key between percent characters is replaced in place, and the position moves by the change in length |
| `MapFile.ExpandNext` | src/glib/gmapfile.cpp:421-440 | one turn of the loop leaves what was expanded and what is left to expand the same, and less of it |
| `Base64.SextetsOfWord` | src/glib/gbase64.cpp:114-122 | shifting three bytes into a 24-bit word and taking the top six bits four times gives the groups of section 4 of RFC 4648 |
| `Base64.OctetsOfWord` | src/glib/gbase64.cpp:155-164 | shifting four six-bit groups in and taking bytes off the top gives the bytes of the same bits |
| `Base64.EncodeBlock` | src/glib/gbase64.cpp:114-122 | up to three bytes become four characters with the right number of pads |
| `Base64.Encode` | src/glib/gbase64.cpp:104-123 | the loop writes all blocks with a line break after every nineteen |
| `Base64.EncodedIsRfc` | src/glib/gbase64.cpp:104-123 | without line breaks the text is that of section 4 of RFC 4648, which module Rfc4648 writes out with its own table, groups and pads |
| `Base64.EncodedIsLines` | src/glib/gbase64.cpp:96-123 | with line breaks there is one after every 57 bytes, or 76 characters, but none at the end |
| `Base64.DecodeBlock` | src/glib/gbase64.cpp:154-164 | up to four characters become bytes, and the error flag is set for strangers, too few digits or leftover bits |
| `Base64.BlockMeans` | src/glib/gbase64.cpp:154-166 | a block with a stranger or with fewer than two letters is an error, and from the others there is one byte less than there are letters |
| `Base64.NoErrorMeans` | src/glib/gbase64.cpp:143-166 | a text that decodes without an error, strictly or not, has only letters, pads and blanks |
| `Base64.DecodeImp` | src/glib/gbase64.cpp:143-166 | the loop skips blanks between blocks and joins the bytes, with the error of any block |
| `Base64.Decode` | src/glib/gbase64.cpp:125-141 | nothing is returned when there is an error |
| `Base64.StrictlyValidIsProper` | src/glib/gbase64.cpp:180-202 | strictlyValid() accepts exactly alphabet characters followed by at most two pads that complete a block, other than one lone character |
| `Base64.DecodeEncoded` | src/glib/gbase64.cpp:104-166 | decoding undoes encoding for all bytes and any line break made of CR, LF and space characters |
| `Base64.EncodedIsProper` | src/glib/gbase64.cpp:180-202 | what is encoded without line breaks passes the strict test |
| `Base64.EncodeDecoded` | src/glib/gbase64.cpp:104-166 | encoding undoes decoding of a strictly valid text, but for missing pads |
| `Base64.ValidIffEncoded` | src/glib/gbase64.cpp:168-202 | a text is strictly valid if and only if it is the encoding of some bytes, with all of its pads or none |
| `Base64.DecodedIsInjective` | src/glib/gbase64.cpp:125-166 | two strictly valid texts with the same bytes are the same once padded |
| `Base64.Accumulate8` | src/glib/gbase64.cpp:204-214 | shifts in one more byte, or zero at the end, counting bytes only |
| `Base64.Generate6` | src/glib/gbase64.cpp:216-222 | takes off a character, or a pad once the bytes are used up |
| `Base64.Accumulate6` | src/glib/gbase64.cpp:224-240 | shifts in one more group, counts its bits unless it is a pad, and flags strangers |
| `Base64.Generate8` | src/glib/gbase64.cpp:242-254 | takes off a byte if there are bits for it, and else demands that nothing is left |
| `Convert.InAfterOut` | src/glib/gconvert.cpp:153-214 | u8in() reads back every code point that u8out() writes, whatever follows |
| `Convert.OutAfterIn` | src/glib/gconvert.cpp:284-326 | u8out() writes back the bytes that u8in() took, for every code point it accepts up to 0x10FFFF |
| `Convert.OutIsRfc` | src/glib/gconvert.cpp:284-326 | u8out() writes the bytes of section 3 of RFC 3629, and nothing for what is no code point |
| `Convert.ParseMeans` | src/glib/gconvert.cpp:153-228 | each step of parsing takes off the bytes of one scalar value, or four bytes for a number above the last one, or one byte, which is replaced by U+FFFD |
| `Convert.WideIsRfc` | src/glib/gconvert.cpp:117-148 | widening in UTF-16 mode writes the units of section 2.1 of RFC 2781, and U+FFFD for what is no code point |
| `Convert.NarrowMeans` | src/glib/gconvert.cpp:239-282 | narrowing reads a pair of surrogates as RFC 2781 says if that is in an odd plane and else one plane lower, and writes U+FFFD for a surrogate alone and for what is no code point |
| `Convert.EncodeParse` | src/glib/gconvert.cpp:216-228 | parsing a string of section 4 of RFC 3629 and writing it out again gives the string |
| `Convert.ParseEncode` | src/glib/gconvert.cpp:216-228 | writing code points and parsing them gives the code points |
| `Convert.ValidMeetsGrammar` | src/glib/gconvert.cpp:44-51 | valid() is the grammar of RFC 3629 if and only if no code point is above 0x10FFFF |
| `Convert.OutOfRangeIsValid` | src/glib/gconvert.cpp:194-205 | the four bytes for 0x110000 are called valid, and are not UTF-8 |
| `Convert.RoundTrip` | src/glib/gconvert.cpp:89-151 | for any bytes at all narrow(widen()) is valid UTF-8, that of the code points with each mended in a stated way |
| `Convert.RoundTripUcs4` | src/glib/gconvert.cpp:239-282 | in UCS-4 mode narrow(widen(s)) is s if and only if s is UTF-8 |
| `Convert.RoundTripIdempotent` | src/glib/gconvert.cpp:239-282 | in UCS-4 mode a second round trip changes nothing |
| `Convert.RoundTripUtf16` | src/glib/gconvert.cpp:248-263 | in UTF-16 mode narrow(widen(s)) is s if and only if s is UTF-8 without code points in even supplementary planes |
| `Convert.EvenPlaneIsLost` | src/glib/gconvert.cpp:248-263 | the first code point of plane 2 comes back from plane 1 |
| `Convert.U8out` | src/glib/gconvert.cpp:284-326 | writes at the pointer, or only counts without one, and returns the same size both times |
| `Convert.WidenImp` | src/glib/gconvert.cpp:99-151 | with and without an output buffer it returns the number of units that the second pass writes, writes exactly those, and reports validity |
| `Convert.Widen` | src/glib/gconvert.cpp:89-97 | the two passes together give the wide string |
| `Convert.NarrowImp` | src/glib/gconvert.cpp:239-282 | the same for the bytes of a wide string |
| `Convert.Narrow` | src/glib/gconvert.cpp:230-237 | the two passes together give the narrow string |
| `Convert.WideOut` | src/glib/gconvert.cpp:117-148 | writes one code point as one unit or a surrogate pair, or only counts |
| `Convert.NarrowOut` | src/glib/gconvert.cpp:264-280 | writes one code point or the replacement, or only counts |
| `Convert.NarrowAfterWide` | src/glib/gconvert.cpp:117-142 | narrowing undoes widening but for code points of even supplementary planes in UTF-16, which come back one plane lower, and surrogates |
| `SecretsFile.ServerKeyIsInjective` | src/gauth/gsecretsfile.cpp:275-283 | keys are the same only for the same kind, but for case, and identity, when kinds have no space |
| `SecretsFile.ClientKeyIsInjective` | src/gauth/gsecretsfile.cpp:285-288 | the same for kinds and selectors, the empty selector too |
| `SecretsFile.SidesDiffer` | src/gauth/gsecretsfile.cpp:275-288 | no server key is a client key, though they share a map |
| `SecretsFile.SpaceInKind` | src/gauth/gsecretsfile.cpp:280-283 | with a space in the kind two different questions have the same key |
| `SecretsFile.ServerSecretIsFirst` | src/gauth/gsecretsfile.cpp:341-353 | serverSecret() gives the secret of the first line for the kind and identity, and none if there is no such line |
| `SecretsFile.ClientSecretIsFirst` | src/gauth/gsecretsfile.cpp:315-327 | the same for clientSecret() and selectors |
| `SecretsFile.TrustIsFirst` | src/gauth/gsecretsfile.cpp:355-370 | serverTrust() gives the keyword and line number of the first line for a range |
| `SecretsFile.AnyServerSecret` | src/gauth/gsecretsfile.cpp:329-339 | asked without an identity, containsServerSecret() holds if and only if some line has the kind |
| `SecretsFile.SelectorCount` | src/gauth/gsecretsfile.cpp:209-218 | the count kept for a selector is the number of kinds of client secrets under it |
| `SecretsFile.SelectorKnown` | src/gauth/gsecretsfile.cpp:290-313 | a selector is known if and only if a line has it, with or without a secret as asked |
| `SecretsFile.NoErrors` | src/gauth/gsecretsfile.cpp:48-57 | no errors are counted if and only if every line is in order and no two lines are for the same thing |
| `SecretsFile.EntriesAreSpaceFree` | src/gauth/gsecretsfile.cpp:130-147 | no kind that is read from any file has a space |
| `SecretsFile.FileSecret` | src/gauth/gsecretsfile.cpp:117-152 | for any file the secret used is the one on the first line that matches |
| `SecretsFile.LineMeans` | src/gauth/gsecretsfile.cpp:123-224 | for all words and gaps, which word of a line becomes the side, the kind, the identity, the secret and the selector, with the coding that the kind and its decoration ask for, the old names of kinds, trust lines, bare selectors and the lines that are in error |
| `SecretsFile.OtherLines` | src/gauth/gsecretsfile.cpp:127-149 | blank lines and comments mean nothing, and lines of fewer than four words are errors |
| `SecretsFile.OneServerLine` | src/gauth/gsecretsfile.cpp:117-208 | a file of one server line gives the decoded fourth word as the secret of the decoded third, for the kind of the second in any case |
| `SecretsFile.OneClientLine` | src/gauth/gsecretsfile.cpp:117-218 | a file of one client line gives the same for its selector, the fifth word |
| `SecretsFile.NoFile` | src/gauth/gsecretsfile.cpp:300-370 | without a file no question has an answer |
| `SecretsFile.Contents.ProcessLine` | src/gauth/gsecretsfile.cpp:154-224 | every kind of line has the specified effect on the maps, sets and counts |
| `SecretsFile.ReadContents` | src/gauth/gsecretsfile.cpp:117-152 | the loop over the lines fills the maps from all of them, as SecretsFile.LineMeans reads each, unless a secret is invalid |
| `SecretsFile.Contents.AddServer` | src/gauth/gsecretsfile.cpp:199-208 | a server secret is stored, with its kind, unless its key is there |
| `SecretsFile.Contents.AddClient` | src/gauth/gsecretsfile.cpp:209-218 | a client secret is stored and counted unless its key is there |
| `SecretsFile.Contents.ReadLine` | src/gauth/gsecretsfile.cpp:123-150 | comments and blank lines are passed over, lines with too few fields are errors, and the fields of the others go where SecretsFile.LineMeans says |
| `Cram.Exchange` | src/gauth/gcram.cpp:98-148 | the server finds the client's identity, spaces and all, and accepts the response if and only if its own secret gives the same one |
| `Cram.SameResponse` | src/gauth/gcram.cpp:150-199 | all secrets that hold one password, plain or masked, give the same response to a challenge |
| `Cram.ResponseHasNoSpace` | src/gauth/gcram.cpp:143-148 | no computed response holds a space, so that the last space is the separator |
| `Cram.PrintIsHex` | src/glib/ghash.cpp:53-67 | the printed form is two lower-case hexadecimal digits for each byte |
| `Cram.ResponseIsRfc` | src/gauth/gcram.cpp:98-199 | with any secret that holds the password, masked or not, the CRAM-MD5 response is the one of section 2 of RFC 2195, which module Rfc2195 writes out, unless the challenge or a hashed password has a residue over 55 bytes |
| `Cram.ApopResponseIsRfc` | src/gauth/gcram.cpp:157-166 | the APOP response is the one of section 7 of RFC 1939, with the same exception |
| `Cram.OtherResponses` | src/gauth/gcram.cpp:150-199 | which question the TLS library is asked for another hash function, and which secrets are refused |
| `SaslServer.PlainFields` | src/gauth/gsaslserverbasic.cpp:272-280 | the fields found in a PLAIN response are an identity and password if and only if the response has the form of section 2 of RFC 4616 |
| `SaslServer.CramFields` | src/gauth/gsaslserverbasic.cpp:242-271 | the identity found in a CRAM response is accepted if and only if the response is the identity, a space and the digest, as section 2 of RFC 2195 has it |
| `SaslServer.AppliedProves` | src/gauth/gsaslserverbasic.cpp:230-302 | a step authenticates exactly those whose response is the one that the standard of the mechanism asks of the identity, with a valid secret held for it |
| `SaslServer.AppliedRest` | src/gauth/gsaslserverbasic.cpp:230-302 | LOGIN alone takes a second response and has a prompt for it; mechanism, challenge and trustee stay as they are |
| `SaslServer.InitialChallenges` | src/gauth/gsaslserverbasic.cpp:219-228 | LOGIN starts with its first prompt, PLAIN with nothing, and the others with the challenge |
| `SaslServer.AuthenticatedIffProved` | src/gauth/gsaslserverbasic.cpp:160-302 | over every run the server is authenticated if and only if some response was that of the standard for the identity it now has and only questions of trust came later |
| `SaslServer.MechanismIffChosen` | src/gauth/gsaslserverbasic.cpp:160-317 | over every run there is a mechanism if and only if the last init() named it, in any case, and it is on the secure list if that connection was secure and on the insecure list if not |
| `SaslServer.InsecureMechanism` | src/gauth/gsaslserverbasic.cpp:175-198 | on insecure connections nobody uses a mechanism that is not on the list for them |
| `SaslServer.LoginWithoutInit` | src/gauth/gsaslserverbasic.cpp:282-302 | with no init() at all a user name and its password authenticate, since responses without a mechanism are taken for those of LOGIN |
| `SaslServer.TrusteeIsFirst` | src/gauth/gsaslserverbasic.cpp:319-341 | the trustee is that of the first range that has one |
| `SaslServer.IdentityOfRun` | src/gauth/gsaslserverbasic.cpp:343-356 | over every run the reported identity is one that was proved, or else the trustee found last, or else empty |
| `SaslServer.SaslServer.ResetAll` | src/gauth/gsaslserverbasic.cpp:160-168 | returns every field to the unauthenticated start |
| `SaslServer.SaslServer.Initialise` | src/gauth/gsaslserverbasic.cpp:175-198 | starts over unauthenticated, and takes a mechanism on the list for that kind of connection only |
| `SaslServer.SaslServer.ApplyResponse` | src/gauth/gsaslserverbasic.cpp:230-317 | each branch leaves the specified state, outcome and next challenge |
| `SaslServer.SaslServer.TrustedAny` | src/gauth/gsaslserverbasic.cpp:319-341 | the first trusted range sets the trustee, and nothing else changes |
| `SaslClient.MechanismsAreUsable` | src/gauth/gsaslclient.cpp:91-152 | a mechanism that may be chosen is offered by the server and has a valid secret, so that replying to no challenge throws |
| `SaslClient.OurMechanismsInOrder` | src/gauth/gsaslclient.cpp:91-122 | CRAM mechanisms come first, then XOAUTH2, then PLAIN and LOGIN, each only with a secret; without a plain secret only hash types that can be resumed are asked for |
| `SaslClient.CramMechanismsOf` | src/gauth/gsaslclient.cpp:99-117 | the CRAM mechanisms are those of the hash types with a secret, in their order |
| `SaslClient.MatchingInOrder` | src/gauth/gsaslclient.cpp:137-145 | the mechanisms that the server offers stay in the order of preference |
| `SaslClient.Replies` | src/gauth/gsaslclient.cpp:210-247 | what PLAIN, LOGIN and XOAUTH2 reply to each challenge, with the flags of the reply |
| `SaslClient.ChallengeReplies` | src/gauth/gsaslclient.cpp:193-209 | which secret answers a challenge of CRAM or APOP |
| `SaslClient.SaslClient.ChooseMechanism` | src/gauth/gsaslclient.cpp:137-151 | keeps the usable mechanisms in order of preference and returns the first |
| `SaslClient.SaslClient.Next` | src/gauth/gsaslclient.cpp:154-159 | drops the first and says whether any are left |
| `SaslClient.SaslClient.Respond` | src/gauth/gsaslclient.cpp:183-258 | replies as specified and records the identity of a final reply only |
| `Sasl.CramDialogue` | src/gauth/gsaslclient.cpp:193-202 | for every CRAM mechanism the dialogue ends authenticated as the client's identity if and only if both secrets give the same response |
| `Sasl.CramMd5Succeeds` | src/gauth/gsaslserverbasic.cpp:242-271 | CRAM-MD5 always succeeds when both sides hold one password, whichever has it masked |
| `Sasl.PlainDialogue` | src/gauth/gsaslclient.cpp:210-216 | PLAIN succeeds if and only if the identity is not empty and has no NUL and the server has the same password |
| `Sasl.LoginDialogue` | src/gauth/gsaslclient.cpp:217-231 | LOGIN takes two replies and succeeds if and only if the server has the same password |
| `Sasl.NotOffered` | src/gauth/gsaslserverbasic.cpp:175-198 | no dialogue starts with a mechanism that is not on the list for that kind of connection |
| `SplitFilter.InsertedIsIncreasing` | src/gfilters/gsplitfilter.cpp:57-63 | the domains are kept in order without duplicates |
| `SplitFilter.LessAtFirst` | src/gfilters/gsplitfilter.cpp:62 | domains are in the order of the first characters that differ |
| `SplitFilter.DomainsAre` | src/gfilters/gsplitfilter.cpp:57-63 | the domains are exactly the normal domains of the recipients |
| `SplitFilter.Conserved` | src/gfilters/gsplitfilter.cpp:141-153 | the groups together hold every recipient as often as the original |
| `SplitFilter.OneGroupEach` | src/gfilters/gsplitfilter.cpp:141-159 | every recipient is in exactly one group, and each group has one domain and is not empty |
| `SplitFilter.SameGroup` | src/gfilters/gsplitfilter.cpp:141-159 | two recipients are in one group if and only if what follows their first at sign is the same, in any case unless the filter is raw |
| `SplitFilter.MatchingKeepsOrder` | src/gfilters/gsplitfilter.cpp:141-148 | the order within a group is that of the original |
| `SplitFilter.SplitConserves` | src/gfilters/gsplitfilter.cpp:84-139 | over the resulting messages the remote recipients are those of the original, and the local ones are in the original message only |
| `SplitFilter.SplitMeansNoneMissing` | src/gfilters/gsplitfilter.cpp:84-139 | after a split every recipient is in some message |
| `SplitFilter.SplitForwards` | src/gfilters/gsplitfilter.cpp:99-139 | each message goes to the domain of its first recipient, with a colon and the port if there is one, and is otherwise like the original |
| `SplitFilter.FaultLeavesTwice` | src/gfilters/gsplitfilter.cpp:84-139 | after a failure the recipients of the domains already done are in two messages, the others in the original only |
| `SplitFilter.SplitFilter.NewMessage` | src/gfilters/gsplitfilter.cpp:96-123 | makes one message, or fails and leaves at most a partial envelope without content; no other message is touched at any moment |
| `SplitFilter.SplitFilter.Run` | src/gfilters/gsplitfilter.cpp:48-139 | fails if and only if a fault is met; success and each failure leave exactly the specified files, a failure the original as it was and the messages made before it; and after each operation every recipient is in some envelope |
| `SplitFilter.SplitFilter.SortedDomains` | src/gfilters/gsplitfilter.cpp:56-63 | the loop gives the sorted domains without duplicates |
| `MxLookup.BestMxIsBest` | src/gfilters/gmxlookup.cpp:189-219 | the loop ends with a named exchanger of least preference, the earliest on ties, if there is any |
| `MxLookup.ParsePicksLeast` | src/gfilters/gmxlookup.cpp:164-230 | a host is chosen from such an answer only |
| `MxLookup.ParseMeans` | src/gfilters/gmxlookup.cpp:164-230 | what a reply comes to: an error by its code, or else the last alias, the first address, or the named exchanger of least preference, in this order |
| `MxLookup.Parse` | src/gfilters/gmxlookup.cpp:164-230 | the loop and the order of its results are as specified |
| `MxLookup.NextIsOrderly` | src/gfilters/gmxlookup.cpp:134-315 | every event keeps the indices in range, the failures below the number of nameservers, and the count of signals |
| `MxLookup.QuestionsOfTime` | src/gfilters/gmxlookup.cpp:85-107 | which question is asked, and which timer started, by a start and by a timeout |
| `MxLookup.QuestionsOfReply` | src/gfilters/gmxlookup.cpp:134-162 | which nameserver is asked what, disabled, or believed after a reply; any other datagram is ignored |
| `MxLookup.OneSignal` | src/gfilters/gmxlookup.cpp:85-315 | after one start, over any interleaving of replies and timeouts, at most one signal is given and there is silence after it |
| `MxLookup.SignalMeans` | src/gfilters/gmxlookup.cpp:279-315 | over every run the signal is for the message of the start, with the address of some reply and no error, or with no address and the error of some reply or socket |
| `MxLookup.EmptyDomain` | src/gfilters/gmxlookup.cpp:91-94 | for an empty domain it is for the message of the lookup before, since the new one is not recorded |
| `MxLookup.CancelIsSilent` | src/gfilters/gmxlookup.cpp:257-261 | after cancel() nothing happens any more until the next start |
| `MxLookup.PendingUntilSignal` | src/gfilters/gmxlookup.cpp:279-315 | until the signal a timer is running, so that a lookup that is not cancelled never gets stuck |
| `MxLookup.OneStaysEnabled` | src/gfilters/gmxlookup.cpp:85-162 | some nameserver stays enabled in every run if and only if none was left disabled by an earlier lookup |
| `MxLookup.TwoLookupsDisableBoth` | src/gfilters/gmxlookup.cpp:85-162 | with two nameservers two lookups are enough to disable both: the first succeeds and leaves one disabled, the second disables the other |
| `MxLookup.EveryoneIsAsked` | src/gfilters/gmxlookup.cpp:286-309 | without replies every enabled nameserver is asked in each round of timeouts |
| `MxLookup.MxLookup.StartLookup` | src/gfilters/gmxlookup.cpp:85-107 | starts as specified, or fails for an empty domain |
| `MxLookup.MxLookup.Process` | src/gfilters/gmxlookup.cpp:134-162 | acts on a reply as specified, and ignores those that are not answers to its questions |
| `MxLookup.MxLookup.OnTimeout` | src/gfilters/gmxlookup.cpp:286-302 | reports the error, or goes on to the next nameserver |
| `MxLookup.MxLookup.Send` | src/gfilters/gmxlookup.cpp:232-255 | asks only nameservers that are not disabled |
| `MxLookup.AllCanBeDisabled` | src/gfilters/gmxlookup.cpp:156-162 | once more nameservers are disabled than failures are counted, error replies can disable all of them |
| `Date.NextDayNumber` | src/glib/gdate.cpp:226-239 | ++ is a step of one day in the Gregorian calendar, from any day of any month, except from the 28th of February in a leap year before 1800, which the source does not know; on dates it gives the next date |
| `Date.PreviousDayNumber` | src/glib/gdate.cpp:258-277 | -- is a step of one day back, except from the 1st of March in such a year |
| `Date.PreviousOfNext` | src/glib/gdate.cpp:226-277 | -- undoes ++ on any day of any month |
| `Date.NextOfPrevious` | src/glib/gdate.cpp:226-277 | ++ undoes -- if and only if the day is not the one past the end of its month, which check() lets through |
| `Date.ThirtyFirstOfApril` | src/glib/gdate.cpp:226-277 | the 31st of April comes back from -- and ++ as the 1st of May |
| `Date.NumbersInOrder` | src/glib/gdate.cpp:288-311 | day numbers and dates are in the same order, so that a day number determines the date |
| `Date.WeekdaysFollow` | src/glib/gdate.cpp:163-172 | the 1st of January 1970 was a Thursday, and the days of the week follow one another |
| `Date.Date.Increment` | src/glib/gdate.cpp:226-247 | moves to the next day and keeps a cached weekday right, with that one exception |
| `Date.Date.Decrement` | src/glib/gdate.cpp:258-286 | moves to the day before and keeps a cached weekday right, with that one exception |
| `Date.Date.Weekday` | src/glib/gdate.cpp:163-172 | the weekday returned, cached or not, is that of the day number |
| `DateTime.GmtimeInOrder` | src/glib/gdatetime.cpp:58-71 | operator< on broken-down times is the order of the seconds, and no two seconds have the same one |
| `DateTime.GmtimeMeans` | src/glib/gdatetime.cpp:91-99 | the broken-down time is a date of the Gregorian calendar and a time of day, which together give the seconds back |
| `DateTime.Mktimeutc` | src/glib/gdatetime.cpp:110-134 | the binary search ends with the result of trying every second of the window |
| `DateTime.SearchFinds` | src/glib/gdatetime.cpp:110-134 | the result is the one second with the target's broken-down time, if the window has it |
| `DateTime.SearchFindsIff` | src/glib/gdatetime.cpp:110-134 | the result has the target's broken-down time if and only if some second of the window has |
| `DateTime.MemoMakesNoDifference` | src/glib/gdatetime.cpp:175-197 | a remembered offset changes no answer if and only if the local time is at least the width of the window or the offset leads past the epoch |
| `DateTime.EpochIsInverse` | src/glib/gdatetime.cpp:175-197 | for a local time at least 25 hours and ten seconds from the epoch, and a second not further than that from it, the answer is the second itself, whatever is remembered |
| `DateTime.EpochIsError` | src/glib/gdatetime.cpp:175-197 | for one that is further from the local time it is an error |
| `DateTime.EpochWithoutMemo` | src/glib/gdatetime.cpp:175-197 | with nothing remembered a second is found if and only if it is after the epoch and within the window, close to the epoch too |
| `DateTime.Memo.EpochTimeFromUtc` | src/glib/gdatetime.cpp:175-197 | answers as specified, and remembers offsets inside the window only |
| `DateTime.TimeInterval.Normalise` | src/glib/gdatetime.cpp:623-636 | keeps the total time and fails if and only if the seconds overflow |
| `DateTime.TimeInterval.Add` | src/glib/gdatetime.cpp:713-732 | adds the total times exactly and fails if and only if the sum does not fit |
| `DateTime.TimeInterval.Subtract` | src/glib/gdatetime.cpp:734-751 | subtracts the total times exactly and fails if and only if the difference is negative |
| `DateTime.TimeInterval.Increase` | src/glib/gdatetime.cpp:713-720 | adds modulo 2^32 and detects the wrap exactly |
| `DateTime.IntervalsInOrder` | src/glib/gdatetime.cpp:671-674 | operator< on the two fields is the order of the total times |
| `Str.UpperLetters` | src/glib/gstr.cpp:394-398 | the 26 small letters, and nothing else, have another upper case |
| `Str.LowerLetters` | src/glib/gstr.cpp:388-392 | the 26 capital letters, and nothing else, have another lower case |

## Left out

- Hash.HmacIsRfc: the condition on the residues is sufficient; the converse would be a statement about collisions
  of MD5 states.
- Cram.ResponseIsRfc: the condition on the lengths is sufficient, for the same reason.
- Idn.Encode: for domains over 3854 bytes, or with a code point above 0x10FFFF, it says when encode() must throw but
  not that it does not throw otherwise, since a check for overflow may fire.
- Idn.CorrectIffOneNonAscii: Idn::valid() is not part of this model.
- Cram.SameResponse: masked secrets are shown to agree with plain ones for MD5; the other hash functions belong to
  the TLS library and are parameters, for which Sasl.CramDialogue gives the condition.
- SecretsFile.FileSecret: the decoding of fields and the test for dotted secrets are parameters; file times,
  re-reading and the texts of diagnostics are not modelled.
- SaslServer.AuthenticatedIffProved: the lists of mechanisms are parameters; the allow and deny configuration of the
  constructor, preferredMechanism() and the log are not modelled.
- SaslClient.MechanismsAreUsable: the configured white and block lists are one predicate that is a parameter.
- SplitFilter.SplitFilter.Run: new message identities are taken to be new, rewriting the original envelope is one
  step, and the extra headers that list the group are not modelled.
- MxLookup.OneSignal: DNS messages are reduced to the fields that are used, sockets and timers are events that need a
  handler or a running timer; reason texts leave out the nameserver's address, and a start without any socket is not
  modelled.
- MapFile.EditFileThenRead: keys that start or end with a carriage return, which joining trims off, are left out;
  backups and the kinds of typed look-up are not modelled.
- MapFile.EditFileTwice: for keys that MapFile.NoTokenNoRest does not cover and that are not good either, namely those
  that start with a hash or a NUL, have a line end, or a carriage return at an end, nothing is said.
- DateTime.MemoMakesNoDifference: mktime() for local time is a parameter, and gmtime() is the Gregorian calendar of
  `Date` without leap seconds or limits of range.
- Convert.WidenImp: the buffers are arrays that must hold what the first pass counted, as both callers provide.
- SHA and other TLS-library digests, the overloads of the hash state with high and low bit counts, PAM, XOAUTH2
  beyond its replies, and the strength of any hash function.
- Sockets, DNS parsing, processes, the file system, code pages, command-line options and the null, spam and network
  filters.

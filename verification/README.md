# A model of the AIUB lost-and-found application and its mail library

The application keeps reports of lost and found items, scores every new report against the other table, stores the
pairs that score at least 55 and notifies their owners by mail through a bundled copy of PHPMailer. This project models
the three parts of it where mistakes would be hard to see, and proves what they promise:

* **Message encoding** (`Bytes`, `LineBreaks`, `Utf8`, `Base64`, `QEncoding`, `QWrap`, `BWrap`, `HeaderEncoding`,
  `EncodedText`, `HeaderWriter`, `Folding`, `HeaderParameter`, `NameReading`, `HeaderModes`, `MimeParser`, `Mime`,
  `MimeText`, `MimeBody`, `MimeRoundTrip`, `MimeWriter`, `MimeReading`, `MimeReceived`, `PlainWrap`, `Dkim`,
  `DkimTheorems`, `DkimBody`). Text is a sequence of byte values, a UTF-8 character one to four of them. Each writer has
  a partner: a reader for encoded-words (RFC 2047), a reader for multipart bodies (RFC 2046) and one for the header
  fields of their parts, decoders for base64 and Q, or a line-wise definition of the rule the code implements; the round
  trips connect the two.
* **The SMTP client** (`SmtpData`, `SmtpProtocol`, `SmtpSession`, `Recipients`, `Mailer`). The client is an object with
  the fields of the original and a ghost trace of everything it sends and of every answer. The server is arbitrary:
  each reply, end of file, failed socket and failed handshake is an unconstrained value. `SmtpProtocol` fixes the order
  that is allowed and derives what it means for whole traces; the methods of the client, `smtpConnect` and `smtpSend`
  are proved to stay within it. What is asked of the network, and in which order, is recorded beside the trace.
* **The matcher** (`Scoring`, `ScoringPoints`, `Matching`, `MatchingTheorems`, `MatchingInvariant`, `Store`). A request
  is one atomic step on the tables. `Matching` defines the steps on values, `Store` is the form the pages run, with
  tables updated in place and equal to those steps, and the theorems are about every sequence of requests.

Where the code and its stated intent differ, the model follows the code:

* `DKIM_BodyC` treats the body `0` as empty, because PHP's `empty("0")` is true. Its canonical form is then one CRLF
  instead of `0` and a CRLF (`DkimBody.BodyCIsSimpleIff`, `DkimBody.TrailingBreaksIgnoredIff`).
* `DKIM_HeaderC` is not idempotent on a block with a blank line in the middle followed by an indented line without a
  colon (`DkimTheorems.InteriorBlankBreaksIdempotence`, with the exact condition in `HeaderCIdempotentIff`).
* `quotedString` escapes double quotes but not backslashes, so a quoted value with a backslash does not read back
  (`HeaderParameter.QuotedStringReadsBackIff`, with `NameReading.NameReadsBackIff` for names of attachments).
* `encodeHeader` leaves plain text alone even when a word of it looks like an encoded-word, which a receiver then decodes
  (`NameReading.HeaderReadsBackIff`, `NameReading.LookalikeName`).
* `encodeHeader` writes control bytes of a plain ASCII phrase as C escapes, which a mail reader takes for the letters
  and digits they are spelled with (`NameReading.PhraseReadsBackIff`).
* Lines over 998 bytes are cut by `data`, so such a message does not arrive as it was given
  (`SmtpData.DeliveredIntactIff`).

## Model

| member | source | states |
|---|---|---|
| `MimeRoundTrip.MultipartRoundTrip` | aiub-lost-and-found/includes/PHPMailer/PHPMailer.php:3057-3279 | For each of the seven multipart message types and any list of prepared attachments, a reader after section 5.1.1 of RFC 2046 recovers the alternative body, the body, the calendar and the kept attachments, decoded, in order and in the right nesting; the lines of the text that begin with a dash are exactly one delimiter before each part and one close for each group, nested |
| `MimeRoundTrip.SinglePartRoundTrip` | aiub-lost-and-found/includes/PHPMailer/PHPMailer.php:3274-3279 | The eighth type: the text decodes to the body |
| `MimeWriter.CreateBody` | aiub-lost-and-found/includes/PHPMailer/PHPMailer.php:3057-3279 | Appending piece by piece and encoding each written attachment's name and content id on the way, it writes for any draft a body that reads back as a message built from that draft: the same entries with header values the encoder gives, in the parts and delimiters of its type, or the single body |
| `MimeReceived.WhatIsShown` | aiub-lost-and-found/includes/PHPMailer/PHPMailer.php:3057-3279 | What a header reader that knows nothing of the writer finds in the text for a draft: the alternative body first, as text/plain; then the body as text/html (or alone, under its own type); then the calendar as text/calendar unless something is inline; all base64 in the mailer's charset; then exactly the inline entries sent, beside the HTML inside multipart/related; then exactly the attached ones; groups by their media types |
| `MimeReceived.FilesShown` | aiub-lost-and-found/includes/PHPMailer/PHPMailer.php:3533-3632 | The files shown are exactly the entries of the disposition, none twice and of inline ones only the first with its content id, in order: each with its own media type and content, the word inline or attachment, a Content-ID in angle brackets if and only if it is inline and has one, and its encoded file name |
| `MimeReading.FileLeaf` | aiub-lost-and-found/includes/PHPMailer/PHPMailer.php:3571-3607 | The header of a written file, parsed by field names and parameters, tells the entry's type, disposition, content id and name |
| `MimeReceived.MethodOf` | aiub-lost-and-found/includes/PHPMailer/PHPMailer.php:3153-3164 | The calendar's method is the first known one its text mentions in any letter case, or REQUEST |
| `MimeReceived.FileNameShown` | aiub-lost-and-found/includes/PHPMailer/PHPMailer.php:3596-3604 | The name a receiver takes from a parsed file is the secured name if and only if a condition holds that can be checked before writing |
| `MimeWriter.BuiltIsValid` | aiub-lost-and-found/includes/PHPMailer/PHPMailer.php:3570-3607 | Whatever the names and content ids, the header values the encoder gives for them make every written attachment one that the round trip accepts |
| `MimeWriter.MergePrepared` | aiub-lost-and-found/includes/PHPMailer/PHPMailer.php:3533-3632 | The inline and the attached parts, written by two calls with different boundaries, belong to one and the same list of attachments |
| `Mime.AttachAll` | aiub-lost-and-found/includes/PHPMailer/PHPMailer.php:3533-3632 | Exactly the entries of the wanted disposition are written, in list order, identical entries once and only the first inline one of a content id, each with the header values the encoder gives for its name and content id, then the close delimiter |
| `Mime.EncodeEntry` | aiub-lost-and-found/includes/PHPMailer/PHPMailer.php:3571-3607 | The name parameter is left out for an empty name, the file name parameter when nothing is left of the name, and the content id is encoded for inline entries that have one |
| `MimeRoundTrip.ConsAttachment` | aiub-lost-and-found/includes/PHPMailer/PHPMailer.php:3569-3627 | Writing one more attachment in front of well-formed sections adds exactly one part with its header and decoded content |
| `MimeRoundTrip.ConsGroup` | aiub-lost-and-found/includes/PHPMailer/PHPMailer.php:3120-3133 | A nested multipart with its own boundary is one part of the group around it |
| `MimeParser.ParseSections` | aiub-lost-and-found/includes/PHPMailer/PHPMailer.php:3363-3397 | The reader finds exactly the sections between delimiters as long as none holds a delimiter of its own boundary |
| `Mime.KeptIff` | aiub-lost-and-found/includes/PHPMailer/PHPMailer.php:3554-3567 | The two bookkeeping collections of the loop decide correctly whether an attachment is still to be written |
| `HeaderParameter.EncodeParameter` | aiub-lost-and-found/includes/PHPMailer/PHPMailer.php:3570-3584 | Whatever the name, the quoted and encoded parameter is well folded, so it cannot end the part's header early, and what is quoted stands for the secured name |
| `HeaderParameter.EncodeSecured` | aiub-lost-and-found/includes/PHPMailer/PHPMailer.php:3590-3593 | Whatever the content id, its encoded form is well folded and stands for the secured id |
| `NameReading.NameReadsBackIff` | aiub-lost-and-found/includes/PHPMailer/PHPMailer.php:3596-3604 | A receiver that takes the parameter out of its quotes and decodes every word that looks like an encoded-word gets the secured name if and only if: it was sent in base64 words; or in Q words and holds no backslash; or plain, no word of it looks like an encoded-word, and it needs no quotes or holds no backslash |
| `NameReading.LookalikeName` | aiub-lost-and-found/includes/PHPMailer/PHPMailer.php:3596-3604 | A concrete name, `=?x?Q?A?=`, that no mailer writes so that it reads back |
| `HeaderParameter.BackslashIsLost` | aiub-lost-and-found/includes/PHPMailer/PHPMailer.php:5485-5495 | A concrete name with a blank and a backslash that does not read back |
| `NameReading.PhraseReadsBackIff` | aiub-lost-and-found/includes/PHPMailer/PHPMailer.php:3735-3743 | A plain ASCII phrase reads back if and only if it holds no control byte and, where it is written without quotes, no word of it looks like an encoded-word |
| `NameReading.TabIsSpelledOut` | aiub-lost-and-found/includes/PHPMailer/PHPMailer.php:3735-3743 | A concrete phrase with a tab that does not read back |
| `NameReading.LookalikePhrase` | aiub-lost-and-found/includes/PHPMailer/PHPMailer.php:3735-3743 | A concrete phrase, `=?x?Q?A?=`, that is written bare and reads as a single letter |
| `HeaderParameter.QuotedStringReadsBackIff` | aiub-lost-and-found/includes/PHPMailer/PHPMailer.php:5485-5495 | Taking a value out of its quotes gives it back if and only if it was not quoted or holds no backslash: only double quotes are escaped |
| `HeaderParameter.QuotedIff` | aiub-lost-and-found/includes/PHPMailer/PHPMailer.php:5485-5495 | A value is put between quotes if and only if it holds a blank or one of fourteen marks that end a token |
| `HeaderParameter.SecureHeaderUnits` | aiub-lost-and-found/includes/PHPMailer/PHPMailer.php:5093-5096 | Removing line breaks and trimming leaves text of the same charset on one line |
| `Base64.DecodeEncode` | aiub-lost-and-found/includes/PHPMailer/PHPMailer.php:3678-3690 | Decoding an encoded string gives it back, for every byte string |
| `Base64.GroupIsNumber` | aiub-lost-and-found/includes/PHPMailer/PHPMailer.php:3683-3688 | Three bytes read as one number are the four characters read as its digits in base 64 |
| `Base64.TestVectors` | aiub-lost-and-found/includes/PHPMailer/PHPMailer.php:3683-3688 | Three test vectors of section 10 of RFC 4648 |
| `Base64.ChunksFlatten` | aiub-lost-and-found/includes/PHPMailer/PHPMailer.php:3683-3688 | Chunking the encoded text into lines loses nothing |
| `MimeText.PayloadWithin` | aiub-lost-and-found/includes/PHPMailer/PHPMailer.php:3683-3688 | No line of a base64 body has more than 76 bytes |
| `HeaderWriter.EncodeHeader` | aiub-lost-and-found/includes/PHPMailer/PHPMailer.php:3725-3810 | For UTF-8 and for single-byte charsets: in the B and Q branches, decoding every encoded-word on its own and concatenating gives the value back (Q drops its line breaks), each word holds whole characters and carries the right charset, no line is longer than 998 bytes, or 63 where mail() is used, and B words of multi-byte text have at most 75 bytes; in the other branches the value is the plain one |
| `HeaderModes.HowItIsWritten` | aiub-lost-and-found/includes/PHPMailer/PHPMailer.php:3725-3810 | What is written, told from the input alone: with UseSMTPUTF8 and outside comments the trimmed text with CRLF breaks; else an ASCII phrase bare or quoted; base64 words when more than a third of the bytes cannot stand there; Q words when some cannot or the text is too long; else the text itself; all words labelled with the mailer's charset, or us-ascii for ASCII text, and reading back to the text, for Q without its breaks |
| `HeaderModes.NothingAbove127` | aiub-lost-and-found/includes/PHPMailer/PHPMailer.php:3725-3810 | Without UseSMTPUTF8, and in comments always, no byte above 127 is sent |
| `HeaderModes.EightBitIsEncoded` | aiub-lost-and-found/includes/PHPMailer/PHPMailer.php:3725-3810 | Under the same condition text with such a byte goes out as encoded-words and nothing else, each labelled with the mailer's charset, and reads back |
| `HeaderModes.WordsHoldCharacters` | aiub-lost-and-found/includes/PHPMailer/PHPMailer.php:3773-3795 | For a mailer in UTF-8, in any spelling of the name, each of those words holds whole characters |
| `HeaderModes.PhraseIsWritten` | aiub-lost-and-found/includes/PHPMailer/PHPMailer.php:3735-3743 | An ASCII phrase of atoms and blanks is written as it is, any other between quotes, and without control bytes it comes back out of them |
| `HeaderParameter.ControlIsSpelled` | aiub-lost-and-found/includes/PHPMailer/PHPMailer.php:3735-3743 | A control byte of a phrase is written as its C escape letter or in three octal digits |
| `NameReading.HeaderReadsBackIff` | aiub-lost-and-found/includes/PHPMailer/PHPMailer.php:3725-3810 | Reading a written value (outside quoted phrases) gives back what the encoder kept of the text if and only if it was sent in encoded-words or no word of it looks like one |
| `EncodedText.PlainReadsIff` | aiub-lost-and-found/includes/PHPMailer/PHPMailer.php:3806-3807 | Text left as it is reads as it is if and only if none of its words between blanks is an encoded-word |
| `EncodedText.WordsRead` | aiub-lost-and-found/includes/PHPMailer/PHPMailer.php:3797-3809 | A value that is encoded-words, one a line, reads as the concatenated texts of the words |
| `HeaderEncoding.Assemble` | aiub-lost-and-found/includes/PHPMailer/PHPMailer.php:3797-3809 | Putting the word markers around each payload line, normalising and trimming gives a header value that reads back to the texts of the payloads |
| `HeaderEncoding.ReadMadeWord` | aiub-lost-and-found/includes/PHPMailer/PHPMailer.php:3797-3803 | An encoded-word reads back to its charset and its decoded payload |
| `QWrap.Utf8CharBoundary` | aiub-lost-and-found/includes/PHPMailer/PHPMailer.php:2783-2819 | On the Q text of valid UTF-8 and a limit of at least 13, the cut moves back by at most 12 and leaves whole characters on both sides (or lies past the end) |
| `QWrap.WrapEncoded` | aiub-lost-and-found/includes/PHPMailer/PHPMailer.php:2696-2770 | Wrapping a long Q word terminates, and its pieces are the encoded forms of consecutive groups of whole characters, each within the limit, in UTF-8 and in single-byte charsets |
| `QWrap.ByteBoundaryCuts` | aiub-lost-and-found/includes/PHPMailer/PHPMailer.php:2735-2739 | The cut for charsets other than UTF-8 never splits an escape token |
| `BWrap.FitChunk` | aiub-lost-and-found/includes/PHPMailer/PHPMailer.php:3908-3914 | The look-back loop ends with the widest chunk that fits 63 bytes, never below 11 characters |
| `BWrap.Base64EncodeWrapMB` | aiub-lost-and-found/includes/PHPMailer/PHPMailer.php:3889-3920 | The chunks are the base64 forms of consecutive non-empty groups of whole characters covering the input, each of at most 63 bytes |
| `BWrap.AverageLengthBounds` | aiub-lost-and-found/includes/PHPMailer/PHPMailer.php:3898-3904 | The starting length lies between 11 and 47 for every valid UTF-8 string |
| `QEncoding.EncodeQ` | aiub-lost-and-found/includes/PHPMailer/PHPMailer.php:3945-3986 | The sequence of global replacements equals one simultaneous substitution per byte, in all three positions |
| `QEncoding.ReplaceExtendsSubst` | aiub-lost-and-found/includes/PHPMailer/PHPMailer.php:3972-3982 | A further global replacement cannot hit the token of an earlier one, because '=' goes first and no hex digit is ever replaced |
| `QEncoding.QDecodeQ` | aiub-lost-and-found/includes/PHPMailer/PHPMailer.php:3945-3986 | Q decoding (section 4.2 of RFC 2047) inverts the encoding |
| `QEncoding.QAlphabet` | aiub-lost-and-found/includes/PHPMailer/PHPMailer.php:3950-3969 | The output is printable without space and question mark, and phrase output keeps to the alphabet of section 5(3) |
| `QEncoding.QOfByte` | aiub-lost-and-found/includes/PHPMailer/PHPMailer.php:3945-3986 | For each position, which bytes stand for themselves; a space becomes an underscore and every other byte an equals sign and two capital hexadecimal digits of its value |
| `PlainWrap.WrapText` | aiub-lost-and-found/includes/PHPMailer/PHPMailer.php:2683-2771 | Outside quoted-printable mode, the output is some layout of the message's lines whose pieces rejoin to the lines and whose breaks were all needed |
| `PlainWrap.WrapIsReversible` | aiub-lost-and-found/includes/PHPMailer/PHPMailer.php:2696-2770 | Turning the soft breaks back into spaces gives the normalised message, up to one trailing break |
| `PlainWrap.LongLinesAreSingleWords` | aiub-lost-and-found/includes/PHPMailer/PHPMailer.php:2754-2768 | An output line over the limit is a single word with at most one space before it |
| `LineBreaks.NormalizeIsJoin` | aiub-lost-and-found/includes/PHPMailer/PHPMailer.php:5108-5121 | Normalising is rejoining the lines between breaks with the wanted break |
| `LineBreaks.NormalizeAbsorbs` | aiub-lost-and-found/includes/PHPMailer/PHPMailer.php:5108-5121 | Normalising to one break style and then to another equals normalising straight to the second |
| `LineBreaks.IterateLines` | aiub-lost-and-found/includes/PHPMailer/SMTP.php:774-791 | The one-pass iterator equals normalising to LF and splitting on LF, for every string |
| `Dkim.DkimHeaderC` | aiub-lost-and-found/includes/PHPMailer/PHPMailer.php:5259-5290 | The code computes the relaxed canonical form: logical lines, each with lower-cased trimmed name and the words of its value one space apart |
| `Dkim.CollapseIsWords` | aiub-lost-and-found/includes/PHPMailer/PHPMailer.php:5280-5286 | Collapsing runs of blanks and trimming equals joining the words of the value with single spaces |
| `Dkim.UnfoldIsMerge` | aiub-lost-and-found/includes/PHPMailer/PHPMailer.php:5263-5269 | The unfolding replacement joins exactly the physical lines that start with a blank to the line before |
| `DkimTheorems.HeaderCIdempotentIff` | aiub-lost-and-found/includes/PHPMailer/PHPMailer.php:5259-5290 | A second pass changes nothing if and only if no logical line after the first starts with a blank and lacks a colon |
| `DkimTheorems.HeaderCIdempotent` | aiub-lost-and-found/includes/PHPMailer/PHPMailer.php:5259-5290 | It is idempotent on every block without interior blank lines |
| `DkimTheorems.InteriorBlankBreaksIdempotence` | aiub-lost-and-found/includes/PHPMailer/PHPMailer.php:5259-5290 | A concrete block with an interior blank line on which a second pass changes the result |
| `DkimTheorems.HeaderCIgnoresFolding` | aiub-lost-and-found/includes/PHPMailer/PHPMailer.php:5263-5287 | Exchanging one run of folding white space inside a value for another does not change the canonical header (section 3.4.2 of RFC 6376) |
| `DkimTheorems.OrdinaryFields` | aiub-lost-and-found/includes/PHPMailer/PHPMailer.php:5259-5290 | A block of fields in any break style comes out with names in small letters, nothing before the colon, words one space apart and no blank at the ends |
| `DkimBody.BodyCIsSimpleIff` | aiub-lost-and-found/includes/PHPMailer/PHPMailer.php:5303-5313 | The result follows the line-wise rule of section 3.4.3 of RFC 6376 if and only if the body is not the single character 0 |
| `DkimBody.BodyOfLines` | aiub-lost-and-found/includes/PHPMailer/PHPMailer.php:5303-5313 | Lines in any break style come out each with a CRLF, without the empty ones at the end; empty lines alone are one CRLF |
| `DkimBody.TrailingBreaksIgnoredIff` | aiub-lost-and-found/includes/PHPMailer/PHPMailer.php:5303-5313 | Breaks added at the end are ignored if and only if the body is not 0 or nothing is added |
| `DkimBody.BodyCIdempotent` | aiub-lost-and-found/includes/PHPMailer/PHPMailer.php:5303-5313 | Canonicalising twice is canonicalising once, for every body |
| `DkimBody.EndsInOneBreak` | aiub-lost-and-found/includes/PHPMailer/PHPMailer.php:5303-5313 | The result ends in exactly one CRLF |
| `DkimBody.BodyCIgnoresBreakStyle` | aiub-lost-and-found/includes/PHPMailer/PHPMailer.php:5108-5121 | The break style of the body does not show in its canonical form |
| `Recipients.IndexOverRuns` | aiub-lost-and-found/includes/PHPMailer/PHPMailer.php:1224-1282 | After any run of additions and clears, the index is exactly the lower-cased addresses of to, cc and bcc, none twice, so its size is the sum of their lengths |
| `Recipients.OneIsAdded` | aiub-lost-and-found/includes/PHPMailer/PHPMailer.php:1224-1282 | For each of the four kinds: a valid address that stands in none of to, cc and bcc in any letter case (for reply-to: not in that list) is appended with its name to the list of its kind and to no other, and the answer is true if and only if that happened |
| `Recipients.OneIsCleared` | aiub-lost-and-found/includes/PHPMailer/PHPMailer.php:4278-4330 | Each clear empties its own list and no other, and a cleared address can be added again |
| `Recipients.RecipientBook.AddAnAddress` | aiub-lost-and-found/includes/PHPMailer/PHPMailer.php:1224-1282 | The object's lists and its answer after an addition are those of the specification, for valid, invalid, duplicate and unknown-kind additions, and the index stays exact |
| `Recipients.RecipientBook.ClearAddresses` | aiub-lost-and-found/includes/PHPMailer/PHPMailer.php:4278-4285 | Clearing one list removes exactly its keys from the index and leaves the rest |
| `Recipients.RecipientBook.ClearAllRecipients` | aiub-lost-and-found/includes/PHPMailer/PHPMailer.php:4323-4330 | Clearing everything empties the three lists and the index and keeps the reply-to list |
| `Recipients.IndexShrinks` | aiub-lost-and-found/includes/PHPMailer/PHPMailer.php:4278-4309 | Removing the keys of one list leaves the index of the other two |
| `SmtpData.FoldLine` | aiub-lost-and-found/includes/PHPMailer/SMTP.php:841-864 | The folding loop terminates, even when a tab is put in front of the rest, and produces the pieces the properties are about |
| `SmtpData.FoldShape` | aiub-lost-and-found/includes/PHPMailer/SMTP.php:841-864 | Every piece has at most 998 bytes, only an empty line gives an empty piece, and header continuations start with a tab |
| `SmtpData.CutAtLastSpace` | aiub-lost-and-found/includes/PHPMailer/SMTP.php:841-858 | An over-long line is cut at the last space among its first 998 bytes, which goes, or after 997 bytes where there is none |
| `SmtpData.FoldReversible` | aiub-lost-and-found/includes/PHPMailer/SMTP.php:840-864 | Apart from one space at a cut and one tab before a header continuation nothing is lost or reordered |
| `SmtpData.HeaderBoundaryKept` | aiub-lost-and-found/includes/PHPMailer/SMTP.php:829-868 | No empty line is created or lost, so the blank line that ends the headers stays where it was |
| `SmtpData.HeadersContinueWithTab` | aiub-lost-and-found/includes/PHPMailer/SMTP.php:824-868 | When the first line starts with a field name without spaces and a colon, every continuation sent before the first empty line starts with a tab; in all other lines nothing is put in |
| `SmtpData.SendData` | aiub-lost-and-found/includes/PHPMailer/SMTP.php:806-887 | The writes are the folded lines, dot-stuffed, each with its CRLF, and then the final dot |
| `SmtpData.Transparency` | aiub-lost-and-found/includes/PHPMailer/SMTP.php:806-887 | For any message and any bytes behind it, the receiver of section 4.5.2 of RFC 5321 recovers exactly the transmitted lines and stops exactly at the final dot |
| `SmtpData.DeliveredIntactIff` | aiub-lost-and-found/includes/PHPMailer/SMTP.php:806-887 | The message arrives line for line as it was given if and only if no line exceeds 998 bytes |
| `SmtpData.LongLineIsCut` | aiub-lost-and-found/includes/PHPMailer/SMTP.php:841-864 | A concrete line of 999 bytes that does not arrive as it was given |
| `SmtpProtocol.AuthFollowsHello` | aiub-lost-and-found/includes/PHPMailer/SMTP.php:531-691 | In every allowed trace, AUTH uses a mechanism allowed by a hello answered with 250 on the same connection after the last STARTTLS, and goes out encrypted where encryption is demanded |
| `SmtpProtocol.AuthedHas235` | aiub-lost-and-found/includes/PHPMailer/SMTP.php:531-691 | An authenticated state rests on a 235 to an authentication step on the same connection |
| `SmtpProtocol.CommandsFollowGreeting` | aiub-lost-and-found/includes/PHPMailer/SMTP.php:379-394 | Every command but QUIT follows a 220 greeting on its connection |
| `SmtpProtocol.EncryptionHasCause` | aiub-lost-and-found/includes/PHPMailer/SMTP.php:486-516 | Encryption comes from an ssl socket or from a handshake right after an accepted STARTTLS |
| `SmtpProtocol.RcptWasAccepted` | aiub-lost-and-found/includes/PHPMailer/SMTP.php:1046-1072 | Every recipient of a transaction was accepted by the server in that transaction |
| `SmtpProtocol.MailWasAccepted` | aiub-lost-and-found/includes/PHPMailer/SMTP.php:1001-1011 | The sender of a transaction was accepted by the server in that transaction |
| `SmtpProtocol.RcptFollowsMail` | aiub-lost-and-found/includes/PHPMailer/SMTP.php:1001-1072 | RCPT follows an accepted MAIL of the same transaction |
| `SmtpProtocol.DataFollowsRcpt` | aiub-lost-and-found/includes/PHPMailer/PHPMailer.php:2274-2277 | DATA follows an accepted MAIL and an accepted RCPT of the same transaction |
| `SmtpProtocol.MessageLineFollows354` | aiub-lost-and-found/includes/PHPMailer/SMTP.php:806-875 | Message bytes are written only after a 354, with nothing but message bytes in between |
| `SmtpProtocol.NothingAfterQuit` | aiub-lost-and-found/includes/PHPMailer/SMTP.php:1022-1032 | After QUIT the connection is closed before anything else happens on it |
| `SmtpProtocol.NothingInTheClear` | aiub-lost-and-found/includes/PHPMailer/PHPMailer.php:2370-2441 | Where encryption is demanded, no credential, envelope or message byte leaves on a clear connection |
| `SmtpSession.ChooseMechanism` | aiub-lost-and-found/includes/PHPMailer/SMTP.php:537-590 | The mechanism chosen is allowed by the announced capabilities |
| `SmtpSession.MechanismOrder` | aiub-lost-and-found/includes/PHPMailer/SMTP.php:537-590 | On the server's list the configured mechanism is taken if it is there, else the first of CRAM-MD5, LOGIN, PLAIN and XOAUTH2 that is |
| `SmtpSession.MechanismElse` | aiub-lost-and-found/includes/PHPMailer/SMTP.php:537-590 | Without a list there is no choice; a server that only spoke HELO gets the configured mechanism or LOGIN |
| `SmtpProtocol.KnownIff` | aiub-lost-and-found/includes/PHPMailer/SMTP.php:945-979 | An extension is known if and only if some reply line announces it |
| `SmtpProtocol.LastLineCounts` | aiub-lost-and-found/includes/PHPMailer/SMTP.php:945-979 | Its value is that of the last such line: the mechanisms for AUTH, the limit or 0 for SIZE, a mark otherwise |
| `SmtpSession.SmtpClient.SendCommand` | aiub-lost-and-found/includes/PHPMailer/SMTP.php:1114-1172 | Whatever the server answers, a command goes out once, on a live connection, only without line breaks, and success means an expected code |
| `SmtpSession.SmtpClient.Hello` | aiub-lost-and-found/includes/PHPMailer/SMTP.php:900-979 | EHLO goes out first and HELO only after a refusal that is not a 421; the stored capabilities are those of the latest hello answered with 250 |
| `SmtpSession.SmtpClient.Authenticate` | aiub-lost-and-found/includes/PHPMailer/SMTP.php:531-691 | Success means connected and a dialogue in which the chosen mechanism got the codes it needs, the last a 235; on a live connection failure means an answer the mechanism cannot go on with, or a mechanism or token that is missing |
| `SmtpSession.SmtpClient.Connect` | aiub-lost-and-found/includes/PHPMailer/SMTP.php:348-395 | Success if and only if this call opened a socket greeted with 220; any other greeting closes the socket again, after a 554 with a QUIT; an open connection is left alone |
| `SmtpSession.SmtpClient.Data` | aiub-lost-and-found/includes/PHPMailer/SMTP.php:806-887 | Success means the trace holds a 354, exactly the stuffed lines of the message, and a 250 to the final dot, in a transaction with the sender and recipients accepted before; on a live connection failure means no 354, or all of that and no 250 |
| `Mailer.MailTransport.SmtpConnect` | aiub-lost-and-found/includes/PHPMailer/PHPMailer.php:2325-2470 | For any host list and any servers the run stays within the allowed order; success with authentication configured means a 235 on the open connection, and a new connection is encrypted when SMTPSecure or the entry of its host asks for it, or when automatic encryption applies and a hello offered STARTTLS; the valid entries are tried in order, none skipped, up to the one that is used; and without authentication or TLS to ask for, one 220 is enough |
| `Mailer.MailTransport.Negotiate` | aiub-lost-and-found/includes/PHPMailer/PHPMailer.php:2405-2452 | Greeting, upgrade, second greeting and authentication keep the order whatever is answered; success is encrypted when TLS was wanted or automatic encryption was offered; failure needs authentication, a wish for TLS or such an offer |
| `Mailer.MailTransport.OfferRecipients` | aiub-lost-and-found/includes/PHPMailer/PHPMailer.php:2258-2272 | The refused addresses are the ones reported, in order, and the transaction's accepted recipients grow by exactly the others, in order |
| `Mailer.MailTransport.SmtpSend` | aiub-lost-and-found/includes/PHPMailer/PHPMailer.php:2232-2311 | DATA is attempted if and only if some recipient was accepted; full success means all recipients of the three lists were accepted in order; what is reported as sent was delivered, whole, from the given sender to exactly the accepted recipients; refused and accepted recipients split the three lists; and each failure reported has its cause in the trace |
| `Scoring.CalculateMatchScore` | aiub-lost-and-found/includes/matching.php:14-66 | The accumulated score is the sum of the six criteria and lies between 0 and 100; what each is worth is said by the rows below |
| `ScoringPoints.ScoreIsSum` | aiub-lost-and-found/includes/matching.php:14-66 | The score, point by point on the fields: 30 for equal categories, thirty times the share of the lost item's keywords found rounded to nearest, 10 each for agreeing colors and brands and for a common word of the locations, and the days |
| `ScoringPoints.SelfScoresHundred` | aiub-lost-and-found/includes/matching.php:14-66 | A report with a keyword, a color, a brand and a location keyword scores 100 against itself |
| `ScoringPoints.PlaceIsTen` | aiub-lost-and-found/includes/matching.php:43-51 | Of two finds that differ only in the location, the one that shares a word with the lost item's scores exactly 10 more than one that does not |
| `ScoringPoints.CategoryIsThirty` | aiub-lost-and-found/includes/matching.php:17-20 | The same for equal categories, 30 more |
| `ScoringPoints.ColorIsTen` | aiub-lost-and-found/includes/matching.php:31-35 | The same for colors that agree but for case and outer blanks, 10 more |
| `ScoringPoints.BrandIsTen` | aiub-lost-and-found/includes/matching.php:37-41 | The same for brands, 10 more |
| `ScoringPoints.DaysAreTenOrFive` | aiub-lost-and-found/includes/matching.php:53-63 | A find up to thirty days after the loss scores 10 more, up to sixty days 5 more, and a later one the same, as one before the loss |
| `Scoring.KeywordsSplit` | aiub-lost-and-found/includes/matching.php:68-75 | Any byte that is neither letter nor digit separates keywords |
| `Scoring.KeywordsOfWord` | aiub-lost-and-found/includes/matching.php:68-75 | A run of letters and digits is one keyword in lower case, unless it is one of nineteen words left out |
| `Scoring.ScoreBounds` | aiub-lost-and-found/includes/matching.php:65 | The sum never exceeds 100, so the final minimum never clips |
| `Scoring.KeywordsOfJoin` | aiub-lost-and-found/includes/matching.php:68-75 | Keyword extraction distributes over texts joined by a space |
| `Scoring.MoreWordsNeverLower` | aiub-lost-and-found/includes/matching.php:27-33 | Appending words to a found item's description never lowers its score |
| `Scoring.ThresholdNeedsEvidence` | aiub-lost-and-found/includes/matching.php:14-66 | Reaching 55 needs equal categories or 60 * common >= 29 * words of the lost item |
| `MatchingTheorems.IncrementalIsJoin` | aiub-lost-and-found/includes/matching.php:80-133 | After any sequence of requests the stored pairs are exactly those scoring at least 55 whose earlier-reported item was unresolved when the later one was reported |
| `MatchingTheorems.FullJoin` | aiub-lost-and-found/includes/matching.php:80-133 | Without resolves they are all pairs scoring at least 55 |
| `MatchingTheorems.OrderIndependence` | aiub-lost-and-found/report-lost.php:17-32 | Without resolves the matched items do not depend on the order of the requests |
| `MatchingTheorems.UnresolvedStored` | aiub-lost-and-found/includes/matching.php:80-107 | In every reachable state a pair that scores enough and has neither item resolved is stored |
| `MatchingTheorems.RematchAddsNothing` | aiub-lost-and-found/includes/matching.php:80-133 | In every reachable state, matching any unresolved item again changes nothing at all |
| `MatchingTheorems.MatchAgain` | aiub-lost-and-found/includes/matching.php:80-133 | On any database, matching an item twice in a row equals matching it once |
| `MatchingTheorems.ResolvedIff` | aiub-lost-and-found/item-details.php:23-30 | An item is resolved if and only if at some point a logged-in visitor who was its reporter, a registered user, asked for it on its page: permanent, never spontaneous |
| `MatchingTheorems.VisitFrame` | aiub-lost-and-found/item-details.php:10-55 | A visit by anyone but the reporter changes no status, and a visit by nobody logged in changes nothing at all |
| `MatchingTheorems.RejectedReport` | aiub-lost-and-found/report-lost.php:17-32 | A report with a missing field or a bad image changes nothing |
| `MatchingInvariant.ReachableInvariant` | aiub-lost-and-found/includes/matching.php:109-133 | In every reachable state each row names existing items and stores their score, which is in 55..100, no pair has two rows, an open item has no row and a matched one has one |
| `MatchingInvariant.RowsHaveEvidence` | aiub-lost-and-found/includes/matching.php:14-66 | Every stored row rests on equal categories or on nearly half of the lost item's words |
| `MatchingInvariant.OneEach` | aiub-lost-and-found/includes/functions.php:165-197 | One event writes exactly one notification row for each user among owner and finder who exists and has an e-mail |
| `MatchingInvariant.NotificationsConserved` | aiub-lost-and-found/includes/functions.php:102-107 | Over any run the number of notification rows is the sum, over match creations and resends, of the sizes of their audiences |
| `Store.Database.NotifyMatchFound` | aiub-lost-and-found/includes/functions.php:165-420 | Which rows are inserted, in order, and when the function reports that all mails went out |
| `Store.Database.EvaluateAndStoreMatch` | aiub-lost-and-found/includes/matching.php:109-133 | The tables after an evaluation: the row, both status changes and the notifications, or nothing |
| `Store.Database.MatchNewLostItem` | aiub-lost-and-found/includes/matching.php:80-91 | The loop over the unresolved found items leaves the tables the specification says |
| `Store.Database.MatchNewFoundItem` | aiub-lost-and-found/includes/matching.php:96-107 | The same for the unresolved lost items |
| `Store.Database.ReportLostPage` | aiub-lost-and-found/report-lost.php:6-32 | A complete report inserts an open item and matches it; an incomplete one or a bad image changes nothing |
| `Store.Database.ReportFoundPage` | aiub-lost-and-found/report-found.php:6-32 | The same for found items |
| `Store.Database.ItemPage` | aiub-lost-and-found/item-details.php:10-55 | The page does nothing unless its item and reporter exist; the reporter's resolve marks the item and nothing else, and comes before a resend; a resend by anyone logged in adds the notifications of an existing match and changes nothing else |

## Left out

- QWrap.Utf8CharBoundary: requires the Q text of valid UTF-8 and a limit of at least 13, because on ill-formed input the loop of the original need not terminate; `encodeHeader` calls it with a limit of at least 47.
- QWrap.WrapEncoded: covers one long word, which is what `encodeQ` produces (it replaces every space); quoted-printable mode on text with spaces is not modelled.
- HeaderWriter.EncodeHeader: a charset other than UTF-8 is taken as a single-byte one with a name after section 2.3 of RFC 2978; multi-byte charsets such as Shift_JIS, for which the original asks `mb_strlen`, and strings that are not valid in a UTF-8 mailer's charset are not modelled. Q words have no 75-byte bound in SMTP mode and none is claimed.
- MimeRoundTrip.MultipartRoundTrip: covers parts sent in base64; quoted-printable, 7bit and 8bit parts, and the switch of encodings for long or 8-bit lines, are not modelled.
- MimeWriter.CreateBody: names and content ids must be text of the mailer's charset; for the multipart types the sender's media types are taken to be single lines that are not themselves multipart, and the boundary id to be free of quotes and breaks. Text parts are base64 under `UseSMTPUTF8` too, where the original sends the body part as 8bit.
- Mime.AttachAll: the SHA-256 of the serialised entry is taken as the entry itself, and attachments are already read (the errors of `encodeFile` are left out).
- HeaderParameter.EncodeParameter: the same restriction on charsets as `HeaderWriter.EncodeHeader`.
- BWrap.Base64EncodeWrapMB: the room of 63 bytes is that of a charset name of five bytes, which every spelling of utf-8 has.
- BWrap.AverageLengthBounds: the floor of a floating-point product is modelled by exact rationals.
- Scoring.CalculateMatchScore: `round` is modelled by exact rationals; dates are the outcome of `strtotime`, in seconds or failed.
- PlainWrap.WrapText: the message is wrapped on values, with the line break in use as a parameter.
- SmtpSession.SmtpClient.SendCommand: requires that the command is allowed at that point, which is how the mailer uses it; the original leaves the order to its callers. The same holds for the other methods of the client. Replies are given by their code and the fields of their lines; enhanced codes and error details are not modelled.
- SmtpSession.SmtpClient.Data: failing writes are not told apart from successful ones, as in the original, which ignores the result of `fwrite`.
- Mailer.MailTransport.SmtpConnect: the syntax checks of a host entry are a flag, and ports, timeouts, DSN and VERP options are left out; an exception of the original is a failed outcome.
- Recipients.RecipientBook.AddAnAddress: the verdict of the address validator is a parameter; internationalised addresses and the two queues merged in `preSend` are left out.
- Store.Database.NotifyMatchFound: texts and links of notifications and the mails themselves are left out; what the mail transport answers is a parameter.
- Store.Database.ReportLostPage: the outcome of the image upload and the cleaned form fields are parameters; failing queries are not modelled.
- DKIM signatures, S/MIME, HMAC and boundary generation: cryptography and randomness; the three boundaries share an id and differ in their prefix.
- Sockets, TLS handshakes, timeouts and `get_lines`: foreign input and output, replaced by arbitrary outcomes.
- `parseAddresses`, `msgHTML`, `html2text`, MIME type tables, language files, sendmail and mail transports: tables and shell plumbing.
- Admin inserts and deletes and the deletion of users: their effect depends on foreign keys of `database.sql`, which is not part of this model.
- Login, registration, sessions, browsing pages and scripts: forms with one-branch facts only.
- The database headers under `mariadb/include`: declarations without bodies.

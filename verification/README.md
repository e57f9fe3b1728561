# Verified models of the sett2 core

Dafny models of four parts of sett2, with proofs about all inputs, all runs or all reachable states:

- the FTP client (`src/sett2/ftp_client.h`): the reply reader, login, the transfer dialogue with its
  abort flags, resumed uploads and downloads, the PORT/PASV codec, and the directory listing parsers;
- the periodic scheduler (`src/sett2/cycle_task.cpp`);
- conditions evaluated over pools of parsed expressions (`src/sett2/sett_condi.cpp`), for one thread
  and for any number of threads;
- the string hash (`src/include/hash/hash_func.h`).

Check everything with `dafny verify dfyconfig.toml`.

## How the program is modelled

Loops and objects of the source are methods and classes; each is proved equal to a specification
function or given its whole effect, and the main results are lemmas about those specifications.

| files | what they model |
|---|---|
| `CText`, `Lines` | NUL-terminated text, `strtol`/`atoi`, decimal printing, cutting at `'\n'` |
| `Replies`, `ReplyStream`, `ReplyCuts` | the control connection's reader; the wire format of replies; how it may be cut into reads |
| `Login` | the login table; the login diagram of section 6 of RFC 959 |
| `HostPort` | `port()` and `passive()` |
| `FtpEvents`, `Surroundings`, `FtpClient` | transfers, abort flags, uploads, downloads, listings, in arbitrary surroundings |
| `TransferSafety`, `TransferSuccess`, `ReplyOrder` | what the traces of transfers guarantee; when transfers succeed; which reply a command gets |
| `RemoteServer` | a server that keeps its word about one file; resume correctness |
| `Listing`, `Words`, `Eplf`, `UnixListing`, `VmsListing`, `ListParse` | the listing parsers and printers |
| `ListNames`, `ListingTransfer` | lines of a listing transfer; a directory end to end |
| `Scheduler` | the scheduler and a tick-by-tick scheduler |
| `Conditions`, `ConditionPools` | the expression language; borrowing adaptors |
| `PoolThreads`, `PoolResults` | concurrent evaluation: no deadlock, and the values computed |
| `Hash` | the FNV fold and Schrage's step |

Assumptions that hold throughout:

- `int`, `long` and `size_t` are 32 bits wide: `strtol` saturates there, words wrap there.
- Sockets, files, the server and the observers are inputs. For the client they are one function of the position in its
  trace (`Surroundings.World`): whether a send or read works, what a reply says, whether a data connection can be made,
  and how often the observers called there call `abort()`. The statements hold for all of them unless they name a
  condition. The current year and the MS-DOS listing parser are parameters.
- Where replies are matched with commands, the server answers each command once, and a data command it accepts
  once more when the transfer is over.
- The expression parser is a small expression language with an error outcome; an object pool is a bounded set that
  blocks when it is empty; one pool per expression.

## What turned out to depend on a condition

Each of these is proved as an if-and-only-if; where a lemma is named in parentheses after "for example",
it shows an input on which the code fails.

- A multi-line reply can end early on a body line that does not start with code and space: `atoi` skips
  white space, a plus sign and zeros, so the code may stand behind four or more blanks
  (`ReplyStream.OneReply`; for example `IndentedCodeEndsReply`).
- The reply stream is read back exactly when no read cuts a line and the last one does not fill the buffer
  (`ReplyCuts.RoundTripExactly`; for example `CutInside`).
- A command gets its own reply exactly when no earlier transfer was left open, by an abort, a data connection that
  broke, or an active one that was never made (`ReplyOrder.NextCommandOwn`); ABOR itself gets the reply that ends the transfer.
- Reply codes need not end in a digit. The login loop reads outside its table exactly when USER is answered by
  such a 2xx or 3xx code (`Login.OutOfBounds`), sends a command again exactly after such a code
  (`Login.SentAgain`), without any bound (`Login.SentForEver`), and sends more than three commands exactly in the
  cases of `Login.MoreThanThree`; it is the RFC 959 diagram exactly when all codes it looks at are three digits
  (`Login.LoginRefinesDiagram`; for example `CodesWithoutDigit`).
- passive() stays inside its buffer exactly when the text in parentheses fits and holds five commas, or leaves
  no room for stale bytes to supply the rest (`HostPort.StaysInside`; for example `TooLongForBuffer` and
  `NothingBetweenParentheses`).
- EPLF sizes and times and UNIX sizes come back exactly when they fit a long (`Eplf.RoundTrip`,
  `UnixListing.RoundTrip`).
- A UNIX listing line loses its owner when the link count is six characters starting with `f`, and a
  link's name when it contains the arrow or runs into it (`UnixListing.RoundTrip`; for example `ArrowInName`).
- A VMS listing line keeps its minute only when a space, `:` or `-` follows somewhere, and a plain file
  whose name contains `.DIR` is taken for a directory (`VmsListing.RoundTrip`; for example `MinuteLost`).
- A transfer that has begun succeeds exactly when every command was answered as wanted, nothing broke, no data connection
  was missing, nobody asked for an abort, and the last reply is 2xx (`TransferSuccess.SucceedsExactly`).
- A resumed upload uses whatever number the SIZE reply contains, also from a refusal
  (`RemoteServer.UploadExact`; for example `RefusedSizeWithNumber`), and when SIZE is answered it completes the file
  exactly when its remote length fits a long (`RemoteServer.LongRemoteFile`). A local file whose length does not fit a
  long is never resumed by a download (`RemoteServer.TooLongToResume`).
- file_size throws exactly on a reply of three characters (`FtpClient.Client.FileSize`; for example `CutInside`).
- `id_0` names the first field of the record, not expression 0 (`Conditions.ReferenceName`).

## Model

| member | source | states |
|---|---|---|
| Replies.ControlChannel.ReceiveBurst | src/sett2/ftp_client.h:530-548 | the receive loop collects reads until one leaves the buffer short, and drops what it has when the peer has closed |
| Replies.ControlChannel.QueueLines | src/sett2/ftp_client.h:549-561 | the lines of a burst are queued behind those already there, without loss |
| Replies.ControlChannel.GetSingleResponseLine | src/sett2/ftp_client.h:526-580 | one line is taken from the queue, or from a new burst, with NULs over its terminator; otherwise why none came |
| Replies.ControlChannel.GetResponse | src/sett2/ftp_client.h:495-517 | the reply and the reader afterwards are those of the specification, including lost connections and refused codes |
| Replies.AcceptedTexts | src/sett2/ftp_client.h:202-210 | which texts are let through, by their characters: the first from 1 to 5, the second from 0 to 5, and nothing else matters |
| Replies.BurstEnds | src/sett2/ftp_client.h:531-548 | a read that fills the 2047 characters is followed by another one, and a shorter one ends the burst |
| Replies.Blanks | src/sett2/ftp_client.h:571-578 | both characters of CR LF become NULs, a bare LF becomes one, and text that does not end in LF stays |
| Replies.NextLineShrinks | src/sett2/ftp_client.h:567-579 | every line handed out uses up input, so no reply is read for ever |
| Lines.PiecesConserve | src/sett2/ftp_client.h:549-561 | cutting into lines loses, adds and reorders nothing |
| Lines.PiecesAreLines | src/sett2/ftp_client.h:549-561 | each piece is one line; only the last may lack its terminator |
| ReplyStream.NextPending | src/sett2/ftp_client.h:526-580 | for reads that cut the stream at line boundaries, one call removes exactly the first pending line, wherever its bytes are |
| ReplyStream.LastTest | src/sett2/ftp_client.h:504-506 | the number-and-space test for the last line, whatever NULs its terminator left, equals a textual test: the line starts with the code and a space, or with three white-space characters and a space behind which the code is spelled |
| ReplyStream.CodesWritten | src/sett2/ftp_client.h:202-206 | the codes replies are written with below are exactly the three-digit ones with a first digit from 1 to 5 and a second from 0 to 5 |
| ReplyStream.SpellsNumber | src/sett2/ftp_client.h:506 | a text spells the code, that is white space, at most one plus, zeros, the code and no further digit, exactly when atoi reads the code's number from it |
| ReplyStream.OneReply | src/sett2/ftp_client.h:495-517 | get_response returns exactly the reply sent and takes exactly its lines, if and only if no body line passes that test |
| ReplyStream.CutShort | src/sett2/ftp_client.h:504-510 | otherwise the reply is the text up to the first such line, and the rest is left for the next call |
| ReplyStream.AllReplies | src/sett2/ftp_client.h:495-517 | n calls return n replies in order, leaving later lines pending |
| ReplyStream.StreamRoundTrip | src/sett2/ftp_client.h:495-580 | the byte stream of any list of such replies, cut into any reads that respect line boundaries, is read back as that list |
| ReplyStream.OrdinaryIsFair | src/sett2/ftp_client.h:495-517 | replies of one line, and replies whose inner lines start with neither white space nor the first character of the code, are among those |
| ReplyCuts.RoundTripExactly | src/sett2/ftp_client.h:495-580 | as many calls as replies were sent return those replies and leave nothing if and only if every burst of reads ends with a line and none is dropped behind a full buffer |
| ReplyCuts.CutInside | src/sett2/ftp_client.h:555-558 | a reply cut inside a line is taken for two, and one of three characters is handed out |
| ReplyStream.IndentedCodeEndsReply | src/sett2/ftp_client.h:504-506 | for every code and text, a line with four blanks before the code ends a reply without starting with the code |
| FtpEvents.FiveClasses | src/sett2/ftp_client.h:201-234 | a code that is let through belongs to one of the five classes the assertions rely on |
| FtpEvents.Classes | src/sett2/ftp_client.h:212-234 | each class by characters: a text that is let through is preliminary exactly on 1, complete on 2, intermediate on 3 and negative on 4 or 5, and no other text belongs to a class |
| FtpClient.Client.GetResponse | src/sett2/ftp_client.h:495-517 | the reply that arrives is handed out exactly when it is acceptable |
| FtpClient.Client.SendCommand | src/sett2/ftp_client.h:599-619 | the outcome of a command is what its surroundings make of it, and the exchange is recorded |
| Login.FirstDigitIs | src/sett2/ftp_client.h:481 | the computed first digit is 0 unless the third character of the code is a digit |
| Login.LogIn | src/sett2/ftp_client.h:453-494 | after a 2xx welcome the login loop is the table walk on the replies to come, after any other nothing is sent |
| Login.LoginRefinesDiagram | src/sett2/ftp_client.h:437-494 | verdict and commands are those of the RFC 959 login diagram if and only if the positive codes it looks at are three digits |
| Login.OutOfBounds | src/sett2/ftp_client.h:481-482 | the table is read out of bounds exactly when USER is answered by a 2xx or 3xx code that does not end in a digit |
| Login.SentAgain | src/sett2/ftp_client.h:459-482 | a command is followed by itself exactly when it was answered by such a code, and by the next one otherwise |
| Login.SentForEver | src/sett2/ftp_client.h:459-482 | n such replies to PASS or ACCT make n more of the same command, for every n |
| Login.MoreThanThree | src/sett2/ftp_client.h:459-482 | exactly which first three replies lead to more than three commands |
| Login.LoggedOnBy | src/sett2/ftp_client.h:483-490 | login succeeds exactly when the last reply read is 2xx with a three-digit code |
| Login.CodesWithoutDigit | src/sett2/ftp_client.h:202-210 | texts that get_response lets through on which the table is left, and on which PASS is sent three times |
| Login.DiagramMeaning | src/sett2/ftp_client.h:437-445 | a first part of USER, PASS, ACCT is sent, and login succeeds exactly on 3xx replies followed by a 2xx reply |
| HostPort.PortCommand | src/sett2/ftp_client.h:785-797 | the command text has every dot replaced by a comma |
| HostPort.CutFields | src/sett2/ftp_client.h:813-831 | the in-place loop finds the fourth and fifth comma and writes dots and NULs exactly there |
| HostPort.ReadAddress | src/sett2/ftp_client.h:813-838 | address and port read from the rewritten buffer are those of the original text, and a number that runs on beyond the buffer is reported as such |
| HostPort.ReadReply | src/sett2/ftp_client.h:802-839 | the same, from the text between the parentheses copied into the buffer, a text that does not fit being reported too |
| HostPort.PassiveInverse | src/sett2/ftp_client.h:785-841 | for every IPv4 address and 16-bit port the PORT numbers in a 227 reply without an earlier '(' come back unchanged, whatever the buffer held; with an earlier ')' exactly if the rest of the reply fits too |
| HostPort.EarlierParenthesis | src/sett2/ftp_client.h:804-812 | which text is taken from a reply with an earlier '(' |
| HostPort.StaysInside | src/sett2/ftp_client.h:803-833 | for every reply: neither strcpy nor atoi leaves the buffer, whatever it held, if and only if the text fits and has five commas or no room for stale ones |
| HostPort.TooLongForBuffer | src/sett2/ftp_client.h:812 | an accepted reply with 32 or more characters between the parentheses makes strcpy leave the buffer |
| HostPort.NothingBetweenParentheses | src/sett2/ftp_client.h:816-834 | an accepted reply with nothing between them makes atoi leave it, for some stale bytes |
| FtpClient.Client.SimpleErrorCheck | src/sett2/ftp_client.h:630-637 | true exactly on 2xx; the assertion cannot fail |
| FtpClient.Client.Restart | src/sett2/ftp_client.h:713-727 | goes on exactly on 3xx; the assertion cannot fail |
| FtpClient.Client.OpenDataConnection | src/sett2/ftp_client.h:842-904 | TYPE aside, the dialogue of a transfer; a passive connection that cannot be made ends it after PASV, an active one after the last command |
| FtpClient.Client.Abort | src/sett2/ftp_client.h:645-656 | during a transfer only a request is left; otherwise the request is cleared, one ABOR is sent, and the result is true exactly on a 2xx reply |
| FtpClient.Client.SendData | src/sett2/ftp_client.h:918-943 | both flags are clear afterwards, also on errors; success means the whole source was sent; a request to abort gives failure and exactly one ABOR while connected |
| FtpClient.Client.ReceiveData | src/sett2/ftp_client.h:945-982 | both flags are clear afterwards; the begin is announced first, bytes stop at a request to abort, the total received is reported once unless a read failed; success means the whole stream; a request gives failure and one ABOR |
| FtpClient.Client.ExecuteDataCommand | src/sett2/ftp_client.h:1028-1053 | refused without any effect during a transfer or without a connection; otherwise dialogue, place of a missing data connection, data phase and end are legal for every server and observer, success carries the whole payload, and both flags are clear |
| TransferSafety.CommandsInOrder | src/sett2/ftp_client.h:842-904 | the commands are a first part of TYPE, PORT or PASV, optional REST, data command, and then one ABOR exactly when an abort was asked for |
| TransferSafety.RestOnlyToResume | src/sett2/ftp_client.h:857-861 | a REST among the commands of a transfer is the third, resumes STOR, RETR or APPE from that nonzero offset, and only the data command can follow it |
| TransferSafety.DataAfterPreliminary | src/sett2/ftp_client.h:863-874 | a byte moves only after the data command was answered by a text that starts with 1 |
| TransferSafety.RefusedStops | src/sett2/ftp_client.h:848-867 | a download that ends without data and without a lost connection has failed, and every reply but the last was the one asked for: 3 for REST, 1 for the data command, 2 for the others |
| TransferSafety.MissedConnection | src/sett2/ftp_client.h:869-889 | an active connection is missed only after all commands, a passive one only after PASV, each answered as asked, and nothing moves |
| TransferSafety.DownloadReportsTotal | src/sett2/ftp_client.h:948-974 | a download starts with its announcement, sends nothing, and reports a total exactly once, the number of bytes received, unless a read failed, and then never |
| TransferSafety.UploadOnlySends | src/sett2/ftp_client.h:918-937 | an upload receives and reports nothing |
| TransferSafety.PieceSizes | src/sett2/ftp_client.h:918-957 | what moves at once is one byte to 2048 |
| TransferSafety.StopsAtOnce | src/sett2/ftp_client.h:922-935 | after a request to abort no more bytes move |
| TransferSafety.SuccessIsComplete | src/sett2/ftp_client.h:1045-1052 | success means every command answered as asked (1 for the data command, 3 for REST, 2 for the others), undisturbed data and a final reply that starts with 2 |
| TransferSuccess.SucceedsExactly | src/sett2/ftp_client.h:1028-1053 | a transfer that has begun succeeds if and only if every command was answered as wanted, the last reply is 2xx, and nothing was missing, broken or asked for |
| TransferSuccess.BenignSucceeds | src/sett2/ftp_client.h:1028-1053 | whatever the timing, that is so where the server answers as wanted, sockets work and no observer asks for an abort |
| TransferSuccess.BenignTransfer | src/sett2/ftp_client.h:1028-1053 | so a connected, idle client then succeeds and everything is sent or received |
| TransferSuccess.BenignWorld | src/sett2/ftp_client.h:1028-1053 | there are such surroundings for every transfer |
| ReplyOrder.OwnReply | src/sett2/ftp_client.h:616-620 | within a transfer each command gets its own reply and the final reply is the data command's second one, except that ABOR gets that one |
| ReplyOrder.LagAfter | src/sett2/ftp_client.h:1045-1052 | a transfer leaves one reply waiting exactly when it was opened and its final reply was not read |
| ReplyOrder.NextCommandOwn | src/sett2/ftp_client.h:495-517 | after any transfers the next command gets its own reply if and only if none of them was left open |
| FtpClient.Client.FileSize | src/sett2/ftp_client.h:744-750 | the number is taken from any reply, before its class is checked, and the call throws exactly on a text of three characters |
| FtpClient.Client.UploadFile | src/sett2/ftp_client.h:1079-1115 | command, offset and bytes sent are determined by the number SIZE reported; nothing is sent when reading it threw |
| FtpClient.Client.DownloadFile | src/sett2/ftp_client.h:1054-1078 | the local file is replaced, or when resuming extended, by the bytes received, also when the transfer fails or never starts; the offset is what tell() returns |
| RemoteServer.UploadExact | src/sett2/ftp_client.h:1090-1109 | with a first part of the file on the server the upload completes it exactly for the numbers listed |
| RemoteServer.UploadReads | src/sett2/ftp_client.h:1102 | a number up to the local length leaves exactly what follows it, a greater or negative one nothing |
| RemoteServer.LongRemoteFile | src/sett2/ftp_client.h:748 | with the stated length read by atol the upload completes the file if and only if the length fits a long |
| RemoteServer.RefusedSizeWithNumber | src/sett2/ftp_client.h:748 | a refusal of SIZE with a number in its text makes the upload send nothing |
| RemoteServer.UploadSession | src/sett2/ftp_client.h:1079-1115 | a successful upload in image mode, through APPE and seek or through STOR, leaves remote equal to local if and only if SIZE was not answered or the remote length fits a long |
| RemoteServer.SizeReplies | src/sett2/ftp_client.h:744-750 | SIZE counts as answered exactly on a text that starts with 2, and is otherwise harmless exactly when no number but 0 is read from the text |
| RemoteServer.UniqueUpload | src/sett2/ftp_client.h:1094-1098 | with store_unique and no positive number the data command is STOU and the remote file is never touched, however the upload ends; with a positive number it is APPE all the same |
| RemoteServer.UniqueSession | src/sett2/ftp_client.h:1079-1115 | a whole upload under a unique name: on success everything was sent exactly when the number was 0, and nothing when it was negative |
| RemoteServer.DownloadSession | src/sett2/ftp_client.h:1054-1078 | a successful resumed download in image mode leaves local equal to remote exactly when local was a first part of it; a local file too long for tell() fails and is untouched |
| RemoteServer.TooLongToResume | src/sett2/ftp_client.h:336-340 | tell() gives -1 for a local file whose length is no long, REST is refused and nothing is received |
| RemoteServer.RestartPoint | src/sett2/ftp_client.h:336-340 | the restart point is the local length up to 2147483647, and -1 beyond |
| RemoteServer.PlainDownloadIsLegal | src/sett2/ftp_client.h:1028-1053 | for example, a plain passive download is one of the traces the statements are about |
| RemoteServer.PlainDownloadIsHonest | src/sett2/ftp_client.h:1028-1053 | and a server that keeps its word can take part in it |
| ListNames.StringTrans.GetNextLine | src/sett2/ftp_client.h:366-376 | one line of the stream, the last one also without terminator, a final '\r' turned into a NUL |
| ListNames.StringTrans.AllLines | src/sett2/ftp_client.h:1121-1124 | the loop hands out exactly the lines of the stream |
| ListNames.WrittenListing | src/sett2/ftp_client.h:366-380 | lines written with CR LF come out in order, each followed by one NUL |
| ListNames.BareListing | src/sett2/ftp_client.h:366-376 | lines written with LF alone come out as they are, and so does a last line without terminator |
| FtpClient.Client.ListFiles | src/sett2/ftp_client.h:1116-1140 | ls and ll return the lines of the whole stream however it is cut into reads, and leave the list alone on failure |
| FtpClient.Client.ListStats | src/sett2/ftp_client.h:1141-1159 | ll into records keeps the accepted lines' records in order, each parsed from a fresh record and given the path, and leaves the list alone on failure |
| ListingTransfer.DirectoryReceived | src/sett2/ftp_client.h:1141-1159 | a printed UNIX directory, received in any cuts, comes back row by row as its meaning under the path asked for, if and only if every row survives |
| ListingTransfer.OneLineRow | src/sett2/ftp_client.h:1141-1159 | the rows meant are exactly those a server can print with no line feed in any of their texts |
| CText.GetLongAccepts | src/sett2/ftp_client.h:1502-1510 | get_long says yes exactly to an empty text and to a whole number: white space, at most one sign, digits |
| CText.SignedNumber | src/sett2/ftp_client.h:1502-1505 | white space, an optional sign and digits give their value, held inside the range of a long, and the scan stops behind them |
| Listing.GetMonth | src/sett2/ftp_client.h:1480-1500 | the index of a three-letter month in any case, -1 for every other word |
| Listing.MonthNames | src/sett2/ftp_client.h:1489-1499 | the twelve names have the indices 0 to 11 in their order |
| Listing.CaseDoesNotMatter | src/sett2/ftp_client.h:1480-1486 | words that differ only in case have the same index |
| Eplf.TryParse | src/sett2/ftp_client.h:1170-1204 | the pointer loop equals reading fact by fact up to the tab |
| Eplf.ReadFacts | src/sett2/ftp_client.h:1179-1203 | any list of facts is folded from left to right and the name follows |
| Eplf.RoundTrip | src/sett2/ftp_client.h:1170-1204 | printing then reading saturates size and time and keeps directory flag and name, so it is the identity if and only if both fit a long |
| Words.Scan | src/sett2/ftp_client.h:1251-1309 | the pointer loop acts on exactly the words a space ends, in order |
| UnixListing.TryParse | src/sett2/ftp_client.h:1225-1334 | the parser is the fold over words followed by year, link and padding handling |
| UnixListing.KindsRead | src/sett2/ftp_client.h:1227-1241 | b, c, d, l, p, s and - are read, each with its flag only; a line that starts with anything else is refused and the record left alone |
| UnixListing.TooFewColumns | src/sett2/ftp_client.h:1311-1312 | a line of fewer than six words is refused |
| UnixListing.ShortWhen | src/sett2/ftp_client.h:1287-1296 | so is one whose year or time has fewer than four characters |
| UnixListing.PaddedName | src/sett2/ftp_client.h:1327-1331 | NetWare's three spaces before a name are removed |
| UnixListing.ReadOwner | src/sett2/ftp_client.h:1256-1274 | attributes and owner are read, and a group as word or as number, before the size |
| UnixListing.FirstArrow | src/sett2/ftp_client.h:1318-1323 | the arrow found is the printed one exactly when the name neither contains one nor ends in the start of one |
| UnixListing.RoundTrip | src/sett2/ftp_client.h:1225-1334 | every column comes back, for any spacing, with group as word, number or absent and year or time, if and only if the size fits a long, the link count is not six characters starting with f, and the name is free of the named forms |
| UnixListing.ArrowInName | src/sett2/ftp_client.h:1318-1323 | a link whose name holds the arrow is not read back |
| VmsListing.Scan | src/sett2/ftp_client.h:1350-1397 | the pointer loop cuts at the ending characters of each state and keeps the last word of each piece |
| VmsListing.TryParse | src/sett2/ftp_client.h:1340-1400 | the parser is that scan with the name before the semicolon |
| VmsListing.NoVersion | src/sett2/ftp_client.h:1342-1344 | a line without a semicolon is refused and the record left alone |
| VmsListing.NoMonth | src/sett2/ftp_client.h:1367-1371 | so is a line whose date has no month behind the day |
| VmsListing.NoDate | src/sett2/ftp_client.h:1398-1399 | a line without - and : after the semicolon is accepted with an empty date |
| VmsListing.ReadMinute | src/sett2/ftp_client.h:1386-1389 | the minute is stored exactly when an ending character follows it |
| VmsListing.RoundTrip | src/sett2/ftp_client.h:1340-1400 | name, kind and date come back if and only if a plain name is free of .DIR and a nonzero minute is ended |
| VmsListing.MinuteLost | src/sett2/ftp_client.h:1386-1389 | a line that ends with its minute is not read back |
| ListParse.Parse | src/sett2/ftp_client.h:1467-1477 | the parsers in turn on one shared record, the fourth one arbitrary |
| ListParse.EplfLine | src/sett2/ftp_client.h:1467-1477 | a printed EPLF line is accepted with what it says exactly when size and time fit a long |
| ListParse.UnixLine | src/sett2/ftp_client.h:1467-1477 | a printed UNIX line is accepted with what it says under exactly the parser's conditions |
| ListParse.VmsLine | src/sett2/ftp_client.h:1467-1477 | a printed VMS line passes the earlier parsers without a change to the record and is accepted with what it says |
| ListParse.DosLine | src/sett2/ftp_client.h:1467-1477 | a line that starts neither with + nor with a kind of file and holds no semicolon is what the fourth parser makes of it, the rest of the record kept |
| Scheduler.CycleTask.AddCycleTask | src/sett2/cycle_task.cpp:5-7 | the task is registered last and due at 0, whatever its interval |
| Scheduler.CycleTask.Round | src/sett2/cycle_task.cpp:13-28 | the erase-while-iterating pass visits each task once, in order, and returns the exact minimum |
| Scheduler.PassIsTick | src/sett2/cycle_task.cpp:14-28 | a pass calls what the naive scheduler calls at that tick and sets every due time to the next multiple |
| Scheduler.NothingSkipped | src/sett2/cycle_task.cpp:32-33 | no tick before the earliest due time has anything due |
| Scheduler.Jump | src/sett2/cycle_task.cpp:25-33 | the minimum is the next tick at which anything happens, and 0 exactly when nothing periodic is left |
| Scheduler.WaitingTimes | src/sett2/cycle_task.cpp:22-27 | each due time is the least multiple of its interval from now on, less than one interval away |
| Scheduler.CycleTask.Svc | src/sett2/cycle_task.cpp:9-34 | for every list of tasks with intervals positive or -1 and every stopping round: exactly the naive scheduler's calls before the time reached, positive sleeps that sum to it, and an end of its own accord exactly without periodic tasks |
| Scheduler.TicksGrow | src/sett2/cycle_task.cpp:9-34 | what was called up to some time is a prefix of what is called up to any later time |
| Scheduler.RunCount | src/sett2/cycle_task.cpp:15-22 | after the round at time T a task of interval k has run floor(T/k)+1 times, a one-shot once |
| Scheduler.SomeTicks | src/sett2/cycle_task.cpp:13-28 | for example, three tasks over four ticks |
| Conditions.ReferenceName | src/sett2/sett_condi.cpp:54-55 | id_N refers to expression N exactly for N of 1 or more |
| Conditions.FieldName | src/sett2/sett_condi.cpp:54-58 | every name that does not start with id_ is looked up as a field, with cls_ before it |
| Conditions.BareReference | src/sett2/sett_condi.cpp:54-55 | id_ alone is index 0 |
| Conditions.WorthIs | src/sett2/sett_condi.cpp:86-101 | what a condition is worth: 0 when evaluating it fails; otherwise a constant is itself, a variable the field or the worth of the expression it refers to, and an operator the arithmetic of what its parts are worth |
| Conditions.SomeQuotients | src/sett2/sett_condi.cpp:96 | for example, division truncates towards zero |
| Conditions.ErrorIsLocal | src/sett2/sett_condi.cpp:96-101 | an expression error counts as 0 at its own expression and changes nothing else |
| Conditions.RankIrrelevant | src/sett2/sett_condi.cpp:86-97 | the value does not depend on how the references are shown acyclic |
| ConditionPools.ExprAdaptor.constructor | src/sett2/sett_condi.cpp:41-64 | one source and one zeroed cell for each variable |
| ConditionPools.SettCondition.NewPool | src/sett2/sett_condi.cpp:15-19 | a pool is made of the asked number of parsed copies |
| ConditionPools.SettCondition.Eval | src/sett2/sett_condi.cpp:27-32 | whichever adaptor is borrowed and whatever its cells hold, the result is the expression's value and every adaptor is returned |
| ConditionPools.SettCondition.EvalAdaptor | src/sett2/sett_condi.cpp:72-102 | every cell is overwritten with its reference or field before the expression is evaluated |
| ConditionPools.SettCondition.Fit | src/sett2/sett_condi.cpp:33-38 | true exactly when the value is not 0 |
| PoolThreads.ReachableInvariant | src/sett2/sett_condi.cpp:27-32 | in every reachable state each adaptor is free or held, and a thread holds along a reference path and waits only below it |
| PoolThreads.DeadlockFree | src/sett2/sett_condi.cpp:17-32 | in every reachable state with work left some thread can move, for any threads, any pools of one or more and whatever adaptors hold |
| PoolThreads.SmallestPools | src/sett2/sett_condi.cpp:17-19 | one adaptor for each expression is among those pools |
| PoolThreads.AnythingLeft | src/sett2/sett_condi.cpp:28-30 | and a borrowed adaptor may hold any values |
| PoolThreads.RunsAreBounded | src/sett2/sett_condi.cpp:72-102 | every step uses up one unit of a finite amount of work, so every run ends |
| PoolThreads.AllCanFinish | src/sett2/sett_condi.cpp:27-32 | from every start some schedule brings all threads to their end |
| PoolThreads.CanFinish | src/sett2/sett_condi.cpp:27-32 | and so does some continuation of every run, its length being the work there was |
| PoolThreads.AllReturned | src/sett2/sett_condi.cpp:30-36 | when all threads are done every pool is full again |
| PoolResults.EveryResultIsWorth | src/sett2/sett_condi.cpp:27-32 | in every reachable state of every schedule each thread has computed the values of its first evaluations, whatever stale cells the adaptors it borrowed held |
| PoolResults.DoneHasAllResults | src/sett2/sett_condi.cpp:72-102 | a thread that is done has the value of every evaluation it was given |
| Hash.HashValue | src/include/hash/hash_func.h:10-16 | the loop is the recursive fold from the offset basis |
| Hash.KnownHashes | src/include/hash/hash_func.h:10-16 | the published 32-bit FNV-1 values of the empty string and of "a" |
| Hash.XorBits | src/include/hash/hash_func.h:14 | the exclusive or is bit by bit |
| Hash.BitsDecide | src/include/hash/hash_func.h:14 | and a number is its bits |
| Hash.FoldConcat | src/include/hash/hash_func.h:10-16 | the fold composes over concatenation |
| Hash.MixInverse | src/include/hash/hash_func.h:14 | for a fixed character one step is a bijection on words, with its inverse |
| Hash.FoldInjective | src/include/hash/hash_func.h:13-14 | the fold over any suffix is injective in the starting word |
| Hash.OneCharacterSeparates | src/include/hash/hash_func.h:21-24 | strings that differ in exactly one position never collide |
| Hash.SchrageStep | src/include/hash/hash_func.h:45-48 | for every long the step is multiplication by 16807 modulo 2^31-1, with no intermediate overflow |
| Hash.StepInverse | src/include/hash/hash_func.h:46-48 | the step is a bijection on [0, 2^31-1), with inverse multiplier 1407677000 |
| Hash.StepCollides | src/include/hash/hash_func.h:44-50 | two longs collide exactly when they are equal or differ by once or twice the modulus |
| Hash.HashString | src/include/hash/hash_func.h:44-50 | the hash of a string is the step applied to the signed fold |
| Hash.HashCollides | src/include/hash/hash_func.h:44-50 | two strings get the same hash exactly when their folds, read as signed words, are equal or apart by once or twice the modulus |

## Left out

- The MS-DOS listing parser: any function of the line and the record the first three parsers leave.
- Real sockets, timeouts, `FILE*`, sleeping and the ACE objects; a receive that fails with -1 in the reply reader.
- What happens once passive() has left its buffer.
- Scheduler.CycleTask.Svc: times are unbounded integers; by WaitingTimes no number formed exceeds the time reached plus one interval, so nothing wraps while that fits an int. Intervals are positive or -1. Callbacks do not change the task list.
- FtpClient.Client.ExecuteDataCommand: control replies are arbitrary texts; the bytes they come from are the subject of Replies. Callbacks outside a transfer do not call abort(). The total reported is an unbounded integer; in the source it is a long.
- Login.LogIn: takes the outcome of opening the connection as its first argument; logging out of an earlier session first is not modelled.
- ConditionPools.SettCondition.Eval: the parser is abstract, a reference to an expression that does not exist is excluded, and so are exceptions other than the parser's.
- ConditionPools.SettCondition.constructor: takes the pools as made by NewPool rather than reading them from the configuration.
- ListParse.Parse: does not say what the MS-DOS parser makes of a line the first three refuse; it is a parameter.
- Transfer types other than image in the resume results; ASCII conversion happens in the server.
- The one-line command wrappers, reinitialize, rename, observers' attach and detach, file modification time.
- The task pool, decoders, storage, logging, runtime classes, hash container adapters and the integer-key hash.

# mailfilter core, modelled in Dafny

mailfilter is a Lua module that filters mail. It reads messages from POP3
mailboxes through libcurl, writes them into MH folders, and hands every
header of a message to Lua handlers on the way. This project models the
parts of it that compute something, and proves what they promise.

- `b64_pton` (b64_pton.c): base64 decoding into a caller's buffer.
  - `Base64.B64Pton` works on arrays, and the destination may be the
    source itself.
  - It is proved against `Base64.Decode`, a function over the symbols
    with white space dropped.
  - `Base64Encode` adds an encoder so the round trip can be stated.
- `rfc2047_decode` (rfc2047.c): decoding one MIME encoded word
  (`=?charset?B|Q?text?=`, RFC 2047).
  - `Rfc2047.CharsetTable` is the charset table with its lazily filled
    name lengths.
  - It covers the B and Q decoders and the conversion by iconv(3).
- `str_tolower`, `need_decode`, `skip_ws` and `decode_text` (mailfilter.c),
  in module `HeaderText`. decode_text turns a header value into text: it
  decodes the encoded words and copies the other words, collapsing each
  run of white space to one space.
- `rfc5322_read` (mailfilter.c), in module `MessageReader`: the libcurl
  write callback.
  - It cuts the incoming bytes into lines and pushes each line to the RFC
    5322 parser.
  - It calls the Lua handlers `on_header`, `on_end_of_headers` and
    `on_write`.
  - `ReadCtx.Read` is proved against `Feed`, a function of the reader's
    state and the chunk.
- `mh_folder_newfile`, `l_mh_folder_list` and `direntseq_compar`
  (mailfilter.c), in module `MhFolder`.
  - The folder is a class whose fields are `maxseq` and the directory's
    entries.
  - Creating a file picks a number above every number in the folder.
    On the first call the folder reads the directory for its highest
    number. Later calls count up from the last number created. `Valid()`
    keeps that number at least every number in the folder, so each new
    number is again above them all.
  - Listing returns the numbers in ascending order.
- The LIST and UIDL parsing of `l_pop3_list` (mailfilter.c), in module
  `Pop3List`.
  - The two replies are split with strsep(3).
  - The result is a table from message number to index, size and uid
    (RFC 1939, sections 5 and 7).

`LibC` holds what the C library gives the code: isspace(3), tolower(3),
C strings, strtonum(3), "%d" printing, strlcpy(3) and strlcat(3).
`Wrappers` holds `Option` and `Result`.

Bytes are `char`s with values 0 to 255, and a C string is a `string`
whose NUL is implicit at its end.

Where the code and the documented behaviour part ways, the model follows
the code:
- A header value without encoded words is not passed through unchanged.
  decode_text collapses every run of white space into a single space, and
  `HeaderText.PlainValue` states that.
- `need_decode` holds for every header name. It is an `||` of
  `strcasecmp` results, and no name equals all five. So every value goes
  through decode_text (`HeaderText.NeedDecodeAlways`).
- `mh_folder_newfile` returns -1 in two cases:
  - opendir(3) fails on the first call;
  - the first scan found a positive number and all 29 names after it were
    taken, since the `do … while (maxseq == 0)` does not retry then.

## Model

| member | source | states |
|---|---|---|
| Base64.TableEntry | b64_pton.c:28-44 | the table maps exactly the 64 alphabet characters and '=' to values below 64 ('=' to 0); every other byte is 0xff |
| Base64.Decode | b64_pton.c:46-75 | a result exists only when the non-space symbols are all in the table and their count is a multiple of 4; the output is never longer than the input |
| Base64.B64Pton | b64_pton.c:23-76 | returns -1 exactly when Decode fails; otherwise returns the number of bytes and dst[..r] holds them. Nothing at or past dstsiz, past the source's length or past r is written, so decoding in place is safe |
| Base64.WhitespaceIgnored | b64_pton.c:47-48 | inserting a white-space character anywhere leaves the outcome unchanged |
| Base64.InvalidRejected | b64_pton.c:49-50 | a character that is neither space nor in the table makes the whole decoding fail |
| Base64.CapacityOnlyRejects | b64_pton.c:53-54 | a destination size only turns a result into a failure, and a result obtained with it fits in it |
| Base64.CapacitySuffices | b64_pton.c:53-54 | a destination larger than the decoded bytes never makes the decoding fail |
| Base64Encode.RoundTrip | b64_pton.c:46-75 | decoding the base64 encoding of any byte string gives that string back, with a NULL destination and with any destination at least as large |
| Rfc2047.Terminator | rfc2047.c:75-87 | a word needs more than 6 bytes and a leading "=?"; the terminator is the first "?=" from index 2 that is followed by NUL, space, CR or LF, and none is found only when no such "?=" exists |
| Rfc2047.ScanTerminator | rfc2047.c:75-87 | the scanning loop returns -1 exactly when Terminator finds none, and otherwise its index |
| Rfc2047.FindCharset | rfc2047.c:89-101 | the result is the first table entry whose name matches case-insensitively and is followed by '?'; no earlier entry matches |
| Rfc2047.CharsetTable.constructor | rfc2047.c:23-43 | the table holds the 15 MIME names in order, with every cached length still 0 |
| Rfc2047.CharsetTable.Find | rfc2047.c:89-99 | finds what FindCharset finds, or -1; the cached lengths of the entries examined are filled in and the others keep their value |
| Rfc2047.MimeNamesWellFormed | rfc2047.c:28-42 | the table's names are non-empty, distinct, lower case and contain no '?', which is what makes a charset name match only its own entry |
| Rfc2047.FindOwnName | rfc2047.c:93-95 | a word spelling the k-th name followed by '?' selects entry k |
| Rfc2047.EncodingOf | rfc2047.c:106-108 | 'B'/'b' give B and 'Q'/'q' give Q |
| Rfc2047.ParseWord | rfc2047.c:73-112 | a parsed word has a known charset, a B or Q encoding and the terminator; its text starts after "=?charset?X?" |
| Rfc2047.ParseEncodedWord | rfc2047.c:73-112 | every "=?name?X?text?=" whose text has no '?' or space, and is followed by the end or a space, CR or LF, parses to that charset and encoding, and its text is exactly the encoded text |
| Rfc2047.QDecode | rfc2047.c:133-148 | Q decoding never lengthens the text |
| Rfc2047.QInput | rfc2047.c:130-152 | the iconv input of the Q branch is the decoded text plus its NUL, and exists exactly when the decoding succeeds |
| Rfc2047.DecodeQ | rfc2047.c:130-152 | the in-place loop over the copied text yields QInput: "=XX" becomes one byte only with two hex digits, '_' becomes a space, any other '=' fails |
| Rfc2047.QRoundTrip | rfc2047.c:133-148 | Q decoding the Q encoding of any byte string gives it back |
| Rfc2047.BufferSize | rfc2047.c:116 | tmpsz is the length rounded up to a multiple of 4, plus one |
| Rfc2047.PadCount | rfc2047.c:121-122 | the '=' characters written are len % 4 of them, except those that would fall outside the buffer |
| Rfc2047.RestorePadding | rfc2047.c:121-122 | the padding loop writes '=' at exactly the PadCount positions after the text and changes nothing else |
| Rfc2047.Padded | rfc2047.c:116-123 | the buffer holds the text, then a NUL at tmp[len], and has size tmpsz |
| Rfc2047.BInput | rfc2047.c:115-129 | the iconv input of the B branch is the whole tmpsz buffer |
| Rfc2047.DecodeB | rfc2047.c:115-129 | the B branch builds the padded buffer, decodes it in place with b64_pton and yields BInput |
| Rfc2047.BDecodes | rfc2047.c:124-126 | the B branch succeeds exactly when the base64 text decodes; then the iconv input starts with the decoded bytes and a NUL; a symbol count that is not a multiple of 4 always fails |
| Rfc2047.BRoundTrip | rfc2047.c:116-128 | the iconv input for the base64 encoding of any byte string starts with that string and a NUL |
| Rfc2047.DecodeWord | rfc2047.c:62-170 | a decoded word consumed exactly up to and including its "?=", and its output fits in the caller's buffer |
| Rfc2047.Converted | rfc2047.c:157-164 | the conversion succeeds exactly when iconv gives an output that fits in decode_size |
| Rfc2047.Overwrite | rfc2047.c:159 | iconv's output replaces the start of the buffer and leaves the rest as it was |
| Rfc2047.Rfc2047Decode | rfc2047.c:62-170 | returns -1 exactly when DecodeWord fails, else the bytes consumed; on success the buffer holds the output over its old contents |
| Rfc2047.WordRoundTrip | rfc2047.c:73-164 | any byte string, B- or Q-encoded in a word with a known charset, reaches iconv as itself and a NUL (for B, followed by the rest of the tmpsz buffer), and the word is consumed up to its "?=" |
| Rfc2047.WordBytesLength | rfc2047.c:115-150 | iconv is handed insz bytes: tmpsz = 4 * ((len + 3) / 4) + 1 for B, the decoded bytes plus one for Q |
| Rfc2047.PadWritesAsWritten | rfc2047.c:121-122 | the loop as written writes '=' at len, len+1, … for len % 4 positions |
| Rfc2047.PaddingOverrun | rfc2047.c:116-122 | all those writes fall inside the buffer exactly when len % 4 != 3; for len % 4 == 3 the third one is at tmp[tmpsz] |
| Rfc2047.PadCountInside | rfc2047.c:121-122 | the corrected loop writes exactly the in-bounds writes of the loop as written |
| Rfc2047.OverlapAsWritten | rfc2047.c:104-119 | "=?utf-8?B?=" parses, its text length becomes -1, tmpsz becomes 1, and memcpy receives SIZE_MAX |
| Rfc2047.OverlapDecodesEmpty | rfc2047.c:110-151 | when the "?=" overlaps "?B?", the text is empty and the iconv input is one NUL |
| HeaderText.LowerCopy | mailfilter.c:1096-1105 | the copy is the lower-cased string cut at its NUL or at bufsiz - 1 bytes, and holds no upper-case letter |
| HeaderText.StrToLower | mailfilter.c:1096-1105 | buf holds LowerCopy as a C string, and nothing after its NUL changes |
| HeaderText.LowerCopyIgnoresCase | mailfilter.c:1100-1101 | two names that differ only in case give the same copy |
| HeaderText.NeedDecodeAlways | mailfilter.c:1038-1048 | need_decode holds for every header name |
| HeaderText.SkipWs | mailfilter.c:1050-1056 | skips exactly the spaces, tabs, LFs and CRs at the position, stopping at the first other byte |
| HeaderText.SkipSpace | mailfilter.c:1084 | skips exactly the isspace bytes at the position |
| HeaderText.SkipWsAgrees | mailfilter.c:1053-1084 | without \v and \f the two skips stop at the same place |
| HeaderText.Step | mailfilter.c:1070-1089 | one pass of the corrected loop (isspace skip, copy bounded by ret; see Findings) always advances the position and keeps the text within the buffer |
| HeaderText.DecodedText | mailfilter.c:1065-1092 | the corrected loop (see Findings) ends at the end of the value with the text within the buffer |
| HeaderText.DecodeText | mailfilter.c:1058-1093 | returns a fresh buffer of strlen + 1 bytes holding, as a C string, the text of the corrected loop (DecodedText; see Findings); the decoded buffer ends as DecodedText says |
| HeaderText.CollapsedNormalized | mailfilter.c:1078-1088 | copying the words of a value turns all white space into single ' ', with no leading or doubled spaces; one trailing space remains when white space ends the value |
| HeaderText.CollapsedKeeps | mailfilter.c:1078-1088 | the copy keeps every non-space byte of the value, in order |
| HeaderText.PlainValue | mailfilter.c:1065-1092 | a value with no encoded word comes back with its white-space runs collapsed, and the decoded buffer is untouched |
| HeaderText.FirstWord | mailfilter.c:1074-1075 | with an iconv that returns its whole input, a value that starts with an encoded word whose iconv input fits the 128-byte buffer starts its text with the decoded bytes (strlcpy); the buffer holds that input |
| HeaderText.LastWord | mailfilter.c:1076-1077 | with the same iconv, an encoded word at the end whose iconv input fits is appended to the text (strlcat) |
| HeaderText.TwoWordsJoin | mailfilter.c:1069-1090 | with the same iconv, two encoded words separated by white space, each with an iconv input that fits, decode to the concatenation of their texts, with no space between them |
| HeaderText.StepAsWritten | mailfilter.c:1070-1089 | the pass as written, with skip_ws and the unbounded copy, never moves backwards |
| HeaderText.PassesAsWritten | mailfilter.c:1069-1090 | n passes of the loop as written stay within the value |
| HeaderText.AsWrittenAgrees | mailfilter.c:1069-1090 | on values without \v or \f, and with every copied word fitting, the loop as written gives exactly DecodedText |
| HeaderText.PlainAsWritten | mailfilter.c:1069-1090 | on values without \v, \f or encoded words, the loop as written collapses the white space like the model |
| HeaderText.StallAsWritten | mailfilter.c:1053-1088 | at a \v or \f, every further pass appends one space and does not move, so the loop never ends |
| HeaderText.OverrunAsWritten | mailfilter.c:1084-1088 | a word whose decoding is as long as the value, followed by " x", makes the unbounded copy produce |str| + 1 bytes before the NUL |
| HeaderText.Latin1Overrun | mailfilter.c:1084-1088 | a 59-byte iso-8859-1 value makes the loop as written produce 60 bytes in a 60-byte buffer, while DecodedText keeps 59 |
| HeaderText.ExpansionBounded | mailfilter.c:1084-1088 | with the bounded copy the same value's text is cut to fit |
| MessageReader.Memchr | mailfilter.c:964-966 | the index of the first LF, or none when there is no LF |
| MessageReader.Cut | mailfilter.c:969-974 | the line pushed ends at the LF, or one byte earlier when a CR precedes it |
| MessageReader.HeaderCallValue | mailfilter.c:982-1004 | on_header gets the name lower-cased into 128 bytes and the value after skip_ws run through decode_text; the value passed is never longer than the raw value |
| MessageReader.Dispatch | mailfilter.c:978-1012 | each parser state makes at most one Lua call |
| MessageReader.Drain | mailfilter.c:977-1015 | the do-while stops on NONE or ERR and leaves that state |
| MessageReader.LineStep | mailfilter.c:963-1031 | one line is taken from the buffer: what remains starts after its LF |
| MessageReader.ReadCtx.ScanLf | mailfilter.c:964-966 | finds Memchr's LF, or -1 |
| MessageReader.ReadCtx.CallOnHeader | mailfilter.c:983-1002 | adds the on_header call of HeaderCall and leaves the decoded buffer as decode_text does |
| MessageReader.ReadCtx.DrainAnswers | mailfilter.c:976-1015 | the Lua calls, the decoded buffer and the state end as Drain says |
| MessageReader.ReadCtx.TakeLine | mailfilter.c:963-1031 | the reader's new state is LineStep of the old one |
| MessageReader.ReadCtx.Read | mailfilter.c:952-1036 | returns nmemb * size, and the reader's new state is Feed of the old state and the chunk, with header values decoded by the corrected loop (see Findings) |
| MessageReader.FeedTwice | mailfilter.c:959-1033 | feeding two chunks one after the other is the same as feeding their concatenation |
| MessageReader.ConsumeStops | mailfilter.c:961-966 | the reader stops only on an error state or with no complete line left |
| MessageReader.ErrorSticks | mailfilter.c:961 | once the state is not NONE, the chunks are only stored |
| MessageReader.ConsumeLines | mailfilter.c:961-1032 | without error, every complete line is pushed (CR cut, up to a NUL), on_write gets each line with a single LF ending, and the partial line is kept |
| MessageReader.DrainWritesNothing | mailfilter.c:977-1015 | the parser's answers never cause an on_write call |
| MhFolder.Number | mailfilter.c:626-630 | a regular file's name accepted by strtonum in [1, UINT_MAX] gives a non-zero int, so the abort() is unreachable |
| MhFolder.NumberPositive | mailfilter.c:768-771 | the positive numbers are those of names accepted in [1, INT_MAX] |
| MhFolder.NumberOfCreated | mailfilter.c:778-779 | the file created for number n is read back with number n |
| MhFolder.MarkIsMaximum | mailfilter.c:764-773 | the scan's result is at least every number in the folder, and is 0 or one of them |
| MhFolder.CreatedAbove | mailfilter.c:778-781 | after creating the file of a number above every number in the folder, no number is above it (numbers past INT_MAX read back negative) |
| MhFolder.AboveAll | mailfilter.c:772-779 | a number above the scan's result is above every number in the folder |
| MhFolder.Start | mailfilter.c:760-776 | the count starts at the scan's result on the first call, and at the last number created after that |
| MhFolder.Folder.constructor | mailfilter.c:551 | a new folder has maxseq -1, and Valid() holds |
| MhFolder.Folder.Create | mailfilter.c:780-781 | open with O_EXCL creates the file exactly when its name is free |
| MhFolder.Folder.Scan | mailfilter.c:764-773 | the readdir loop finds the folder's highest number (or 0) |
| MhFolder.Folder.Tries | mailfilter.c:777-783 | up to 29 names after maxseq are tried; all the names skipped are taken; on success the file of the new maxseq is created, otherwise maxseq has gone up by 29 |
| MhFolder.Folder.Pass | mailfilter.c:760-785 | one pass of the do-while: it fails on opendir only on the first call, and otherwise tries the names after Start |
| MhFolder.Folder.NewFile | mailfilter.c:751-789 | -1 when opendir fails on the first call. Otherwise every name from Start to the result is taken, and a new file is created with the first free number. On the first call that number is above every number in the folder. It fails otherwise only when the scan found a positive number and 29 names were taken. From a Valid() folder, on every call, the new number is above every number in the folder and Valid() holds again |
| MhFolder.Folder.List | mailfilter.c:606-659 | no numbers for a missing directory, a Lua error for an unreadable one, else the numbers of the regular numeric files with their multiplicities, sorted as the corrected comparator orders them (see Findings; `ComparAgrees` gives the same signs as the C comparator for numbers in [1, INT_MAX]) |
| MhFolder.ComparAsWritten | mailfilter.c:867-876 | a->seq - b->seq wraps in int; where the difference fits it is the difference |
| MhFolder.ComparCycle | mailfilter.c:875 | the comparator as written orders 1 after -1, -1 after INT_MIN, and 1 before INT_MIN |
| MhFolder.WrappedNumbers | mailfilter.c:628 | the files "4294967295" and "2147483648" have the numbers -1 and INT_MIN |
| MhFolder.NumberOfDecimal | mailfilter.c:628 | a file named by a number in [1, UINT_MAX] has that number stored into an int |
| MhFolder.Compar | mailfilter.c:867-876 | the corrected comparator is negative exactly when a < b and zero exactly when a == b |
| MhFolder.ComparAgrees | mailfilter.c:875 | where the difference fits in an int, the comparator as written has the same sign as the corrected one |
| MhFolder.Insert | mailfilter.c:649 | inserting adds exactly one occurrence of the element |
| MhFolder.InsertSorted | mailfilter.c:649 | inserting into a sorted sequence keeps it sorted |
| MhFolder.Sort | mailfilter.c:649 | sorting is a permutation |
| MhFolder.SortSorted | mailfilter.c:649 | the result of sorting is ascending |
| Pop3List.StrSep | mailfilter.c:233-234 | strsep returns the next field and the position after its delimiter, or no field at the end; the fields still to come are the returned field followed by those after it |
| Pop3List.SplitFrom | mailfilter.c:233-234 | the fields from a position are the bytes up to the first delimiter, then the fields after it |
| Pop3List.Fields | mailfilter.c:237-244 | a line yields at most two non-empty fields |
| Pop3List.FieldsNonEmpty | mailfilter.c:241-242 | empty fields are skipped |
| Pop3List.ReadFields | mailfilter.c:237-244 | the field loop collects exactly Fields of the line |
| Pop3List.TwoFields | mailfilter.c:238-244 | "a b" with two non-empty fields gives [a, b] |
| Pop3List.ListEntry | mailfilter.c:235-254 | an empty line is skipped; otherwise the message has an index in [1, INT_MAX], a size in [1, INT64_MAX >> 1] and no uid |
| Pop3List.ApplyList | mailfilter.c:233-277 | every message in the table has index and size in range, and later lines only add keys |
| Pop3List.ApplyListAppend | mailfilter.c:233-277 | parsing the lines one part after the other is parsing them all, and an error stops the parse |
| Pop3List.ShortLineFails | mailfilter.c:245-247 | a non-empty line with fewer than two fields fails the LIST parse |
| Pop3List.ParseList | mailfilter.c:232-277 | the strsep loops build exactly the ApplyList table of the reply's lines |
| Pop3List.UidlEntry | mailfilter.c:291-306 | an empty line is skipped; otherwise the message number is in [1, INT_MAX] and the uid is not empty |
| Pop3List.ApplyUidl | mailfilter.c:289-314 | UIDL adds no message and changes no index or size; a uid once set stays set |
| Pop3List.ParseUidl | mailfilter.c:286-314 | the strsep loops give exactly ApplyUidl of the reply's lines |
| Pop3List.UidlLineApplies | mailfilter.c:304-312 | a UIDL line sets the uid of its message when the table has it, and is otherwise ignored |
| Pop3List.Pop3List | mailfilter.c:226-315 | the listing is the LIST table, with uids when the UIDL transfer succeeds; a failed LIST transfer is an error |
| Pop3List.ListingInRange | mailfilter.c:249-254 | every message of a listing has its index and size in range |
| Pop3List.ListReplyParses | mailfilter.c:233-277 | a LIST reply of "n size" lines ending in CRLF, with numbers in range, gives exactly those messages |

## Left out

- Allocation failures: calloc, strdup, strndup and recallocarray returning NULL. These are the NULL returns of decode_text and the Lua error of the list method. The model always allocates.
- iconv(3) is a parameter of type `Converter`: a function from the target, the source charset and the input bytes to the output, or a failure. Its character tables are not modelled. The converter gets every byte rfc2047_decode hands it. For B that is the whole tmpsz buffer, so bytes after the NUL are converted too.
- HeaderText.DecodedText: the model is decode_text with the two corrections of the Findings: the skip is isspace, and the word copy is bounded by ret. MessageReader.ReadCtx.Read and HeaderText.DecodeText use it, so on a value with \v or \f, or with a decoded word longer than its encoding, they describe the corrected program and not the C as written. The as-written loop is HeaderText.StepAsWritten and HeaderText.PassesAsWritten.
- Rfc2047.Rfc2047Decode: on an iconv failure the model leaves `decode` unchanged. iconv can fail with E2BIG after writing part of its output, so the C buffer may hold partial output then.
- MessageReader.ReadCtx.Read: the 128-byte `decoded` array of decode_text is modelled as one array that keeps its contents from one header to the next. In C it is a stack array whose contents are indeterminate at each call. Only the text returned depends on what it holds.
- The bytebuffer of the reader has no capacity in the model. The XXX case of a full buffer with no LF does not arise.
- The RFC 5322 parser (rfc5322_push, rfc5322_next, rfc5322_unfold_header) is outside this model. The reader treats it as an oracle from the lines pushed so far to the parser's answers.
- Lua is reduced to three things: which handlers are functions, the calls made in order, and a `Result` for luaL_error. The Lua stack, metatables and the "parent" field are not modelled.
- MhFolder.Folder.NewFile: terminates because the names open(2) refuses besides existing entries form a finite set. If open failed for every name (EACCES), the C loop would go on until `++folder->maxseq` overflows an int. Folder numbers are unbounded in the model, and that overflow is not modelled.
- MhFolder.Folder.NewFile: the promise that the new number is above every number in the folder is made for a folder where `Valid()` holds. Once the directory has been read, another writer can create a file above `maxseq`. The code then simply counts up from `maxseq`, and the model does the same.
- The directory is a sequence of entries fixed between calls. Files created by other processes, readdir_r errors and the full path (PATH_MAX) are not modelled.
- Pop3List.StrSep: the NUL bytes that strsep writes into the buffer are not modelled. The fields are taken as slices of the reply.
- Pop3List.Pop3List: the replies of the LIST and UIDL transfers are parameters. A transfer that failed is `None`.
  - The curl handle, the URL and custom-request options, and the memory stream (its reuse and rewind between calls) are not modelled.
  - The text of the strtonum error messages is reduced to the field that failed.
- l_pop3, l_mh_folder_get/save, the message retr/top/delete functions, mbox, and the command-line tool mailfilterctl.c are not part of this model. Neither are the module's Lua registration functions.

## Findings

| source | as written | input that shows it | evidently intended | confidence | as-written member | corrected member |
|---|---|---|---|---|---|---|
| rfc2047.c:121-122 | the padding loop writes `len % 4` '=' characters from tmp[len]; for len % 4 == 3 the third lands at tmp[tmpsz], one byte past the calloc'd buffer | an encoded word whose B text is 3 bytes long, e.g. `=?utf-8?B?QUJ?=` (tmpsz 5, write at tmp[5]) | write only the positions inside the buffer | high, not executed | Rfc2047.PaddingOverrun | Rfc2047.PadCountInside |
| rfc2047.c:104-119 | when the terminating "?=" overlaps the "?B?" that precedes the text, len becomes -1, and memcpy receives (size_t)-1 | `=?utf-8?B?=` | treat the text as empty (or reject the word) | high, not executed | Rfc2047.OverlapAsWritten | Rfc2047.OverlapDecodesEmpty |
| mailfilter.c:1053 | skip_ws skips only space, tab, LF and CR, while the copy loop stops at every isspace byte; at a \v or \f, each pass appends one space and never advances | a header value containing a vertical tab, e.g. "a\vb" | skip the same white space the copy loop stops at | high, not executed | HeaderText.StallAsWritten | HeaderText.DecodedText |
| mailfilter.c:1084-1088 | the word copy is unbounded and assumes decoded text is never longer than the raw value; a decoded word that expands leaves the later copy writing past `ret` | "=?iso-8859-1?B?" + base64 of 30 bytes 0xE9 + "?= x": 59 bytes, ret of 60, the NUL written at ret[60] | bound the copy by the buffer, as the strlcpy/strlcat branch does | high, not executed | HeaderText.Latin1Overrun | HeaderText.ExpansionBounded |
| mailfilter.c:875 | `a->seq - b->seq` wraps in int; file names above INT_MAX are stored as negative numbers, and the comparator is then not an order | regular files "1", "2147483648" and "4294967295" in one folder | compare the numbers, not their difference | medium, not executed | MhFolder.ComparCycle | MhFolder.Compar |

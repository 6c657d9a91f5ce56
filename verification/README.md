# Verified models of Unifideck's data formats, HTTP plumbing and sync tools

Unifideck edits Steam's shortcut files, talks HTTP through bundled copies of urllib3 and Requests, and keeps
its translations and its Trello board in step with scripts of its own. This project models the parts of that
code in which several functions, or several runs, have to fit together, and proves that they do.
`dafny verify dfyconfig.toml` checks everything.

Five groups of modules follow the five groups of source files.

**VDF files and their multi-map** (`py_modules/vdf`). `VdfTree` holds documents: ordered lists of (key, value)
pairs, of which a plain `dict` is the case with distinct keys. `VdfEscape`, `VdfText` and `VdfStack` are the text
form: the recursive printer, the key-value pattern, and the line parser as a function on a stack. `VdfLoader` and
`VdfParser` are the parser as the source writes it, with nested dictionaries that are filled in place while the
stack refers to them; it is proved to do what the function says. `VdfReading`, `VdfFreeText` and `VdfBadText` say
what it makes of text that the printer did not write, and where it raises. `VdfLoadable` says which documents a
load can leave and which come back from one, and `VdfMerge` gives the meaning of merging loads by the order of
assignments alone. `VdfBinary`, `ByteFiles` and `VdfBinaryLoader` are the binary form in the same two layers,
`VdfLayout` is its layout byte by byte, `VdfBinaryMerge` gives the meaning of its merging, `VdfBinaryAgree` says
exactly when that is the text form's, and `VdfTruncation` treats files that were cut short. `OrderedPairs` is what
a `VDFDict` stands for, `VdfDict` its three structures and the renumbering on delete, `VdfDuplicates` its search
for duplicates.

**Body framing and buffering** (`connection.py`, `response.py` of urllib3). `ChunkedCodec` is the chunked sender
(section 7.1 of RFC 9112) and the reader as a function on bytes; `ChunkedReader` is the reader with its fields,
`ChunkedMessages` what it makes of messages by other senders. `BufferedBody` is the byte queue and sized reads;
`Lines` is line iteration, there and in Requests.

**Connection pool and LRU container** (`connectionpool.py`, `_collections.py`). `PoolProtocol` is the pool as a
state machine: any number of calls, interleaved in any way, each step what one call does between two uses of the
shared queue. `ConnectionPool` has the methods, with `urlopen`'s flags and its try/except/finally, proved to take
exactly those steps; `PoolProgress` says what calls achieve. `RecentlyUsed` is the container and a definition of
"recently used" from the history.

**Redirects and URIs** (`sessions.py`, `utils.py` of Requests). `Redirects` is the chain loop against arbitrary
servers, `Requote` the normaliser of ASCII URIs (sections 2.1 and 6.2.2.2 of RFC 3986); `RedirectRules` and
`RequoteText` state both over listed statuses and characters.

**Unifideck's tools** (`scripts`). `Dicts`, `FlatJson` and `Translator` are the incremental translator,
`TrelloSync` the two-sided sync and `TrelloRules` the texts it writes.

`Outcomes` and `Bytes` are shared: results in place of exceptions, and byte strings.

Where the code and what is said about it disagree, the model follows the code:

- `VDFDict` documents setting by a tuple as a plain replacement; the code also raises the key's count
  (`vdict.py` line 84). `VdfDict.VDFDict.SetAt` states that this breaks the counts exactly when it succeeds.
- `has_duplicates` is documented to look through all nested dictionaries; it stops at the first one it meets at
  each level (`VdfDuplicates.HasDuplicatesIncomplete`). It reads the counts of the keys, so that after a set by a
  tuple it reports duplicates where there are none (`VdfDuplicates.TupleSetMiscounts`). `RecurseExactly` says what
  it reports whatever the counts, `HasDuplicatesExactly` what it reports where they are right.
- The binary loader documents the same merging as the text parser, but it descends into whatever is under the
  key, so a non-empty mapping after a leaf is refused and an empty one is dropped
  (`VdfBinaryMerge.BinaryMergeDiffers`). `VdfBinaryAgree.BinaryMergeAgrees` says exactly when the two agree and
  when the binary load is refused, and `VdfBinaryMerge.BinaryMergeMeaning` what it leaves.
- A wide string may be read back wrongly, because the scan for its terminator finds two zero bytes at any
  position (`VdfBinary.WideMisread`). `VdfBinary.WideReadsBack` says exactly when it is read back.
- A comment in `unflatten_dict` says that of "a" and "a.b" the first wins. It is the shorter that survives, in
  either order: a later "a" overwrites the section (`FlatJson.LaterKeyWins`). `FlatJson.SurvivingKeys` says which
  keys survive in general.
- `update_one_target` promises an up-to-date file; after a stopped run and another edit of the source it may leave
  a stale translation (`Translator.RevertedEdit`), exactly when `Translator.AbandonedEdit` says.
- `read()` is documented as reading the full response; after sized reads it omits the bytes they left buffered
  (`BufferedBody.BufferedByteLost`).
- `iter_lines` reads a "\r\n" that arrives in two chunks as two line breaks (`Lines.BreakIsSplit`).
- `requote_uri` is meant to give a fully quoted URI; with stray '%' it can change the meaning and is not
  idempotent. `Requote.RequoteMeaning` and `Requote.RequoteTwice` say exactly when.
- `_put_conn` says that what came from the pool never meets `FullPoolError`. A call whose timeout argument is
  rejected puts back a slot it never took, and another call may then meet it (`PoolProtocol.RejectedTimeoutHarms`);
  `PoolProtocol.RejectedTimeout` says exactly when the put does harm.

Assumptions, visible as parameters or preconditions: the UTF-8 decoder of the binary loader inverts the encoder
(`VdfBinary.Inverts`; `VdfBinary.InverseExists` shows that there is such a decoder); content decoders are
streaming and have nothing to flush (`BufferedBody.Streaming`); quoting a URL keeps its fragment
(`Redirects.KeepsFragments`); draining a response closes it; the cache's hash is injective; the translator gives
one translation for a text whatever the batch; servers, networks, retry budgets and dropped connections are
arbitrary.

## Model

| member | source | states |
|---|---|---|
| `VdfEscape.UnescapeEscape` | py_modules/vdf/__init__.py:55-65 | unescaping undoes escaping for every string, although the one is a pattern over pairs and the other over single characters |
| `VdfEscape.EscapeStaysOnLine` | py_modules/vdf/__init__.py:61-62 | escaped text holds no raw newline |
| `VdfEscape.EscapedLetters` | py_modules/vdf/__init__.py:40-62 | the letter of each escaped character, listed, and that no other character is escaped |
| `VdfEscape.UnescapedLetters` | py_modules/vdf/__init__.py:40-65 | what each letter after a backslash stands for, and that the backslash stays before any other |
| `VdfText.MatchLeafLine` | py_modules/vdf/__init__.py:87-93 | the key-value pattern reads back the escaped key and the escaped, closed value of every printed leaf line |
| `VdfText.MatchKeyLine` | py_modules/vdf/__init__.py:87-93 | on the printed line of a section the pattern finds the key and no value, so a bracket is expected |
| `VdfStack.EnterFillLeave` | py_modules/vdf/__init__.py:112-116 | entering a mapping, filling it and leaving it is one merge of the whole pair into the mapping below |
| `VdfText.ParsePrinted` | py_modules/vdf/__init__.py:95-180 | parsing the print of any document inside any text merges it, pair by pair, into the mapping on top of the stack and leaves the rest of the text to be parsed |
| `VdfText.ParsePrint` | py_modules/vdf/__init__.py:190-203 | `loads(dumps(x))` of any document, duplicates included and for every mapper option, is the left-to-right merge of its pairs |
| `VdfText.TextRoundTrip` | py_modules/vdf/__init__.py:190-266 | for every document and mapper, pretty or not, `loads(dumps(x)) == x`, order included, exactly when no pair of `x`, at any level, replaces or re-enters one before it |
| `VdfText.ParsedIsLoadable` | py_modules/vdf/__init__.py:68-187 | what any text loads to, by any mapper, has its pairs kept apart in that sense |
| `VdfText.ReloadsTheSame` | py_modules/vdf/__init__.py:68-266 | for every text that loads, with or without escapes and by any mapper, `loads(dumps(loads(t))) == loads(t)` |
| `VdfFreeText.ParseFreeText` | py_modules/vdf/__init__.py:68-187 | any text of pairs, sections, comments and empty lines, with any blanks and tabs, bare or quoted words, brackets on the key's line or below, values over several lines and anything after them, reads as the document it stands for |
| `VdfFreeText.PrintIsText` | py_modules/vdf/__init__.py:246-266 | what the printer writes, character for character, as such a text |
| `VdfReading.PairMatched` | py_modules/vdf/__init__.py:87-93 | a key, blanks and a value match as that pair: quoted text up to its quote, a bare value without the blanks after it and up to a comment |
| `VdfReading.NothingMatched` | py_modules/vdf/__init__.py:87-93 | a key with neither value nor bracket on its line |
| `VdfReading.BracketMatched` | py_modules/vdf/__init__.py:87-93 | a key with `{` or `{}` on its line |
| `VdfBadText.OnePair` | py_modules/vdf/__init__.py:68-187 | `k<blanks>v`, quoted or bare, is a text of one pair, without a line end too |
| `VdfBadText.BomIgnored` | py_modules/vdf/__init__.py:95-97 | a byte order mark in front of the text changes nothing |
| `VdfBadText.ExtraBracket` | py_modules/vdf/__init__.py:112-120 | after any well-written text a closing bracket too many is an error, whatever follows |
| `VdfBadText.NoBracket` | py_modules/vdf/__init__.py:105-110 | so is a key alone on its line before anything but comments, empty lines and a bracket |
| `VdfBadText.MissingBracket` | py_modules/vdf/__init__.py:182-184 | and a section that is not closed before the text ends |
| `VdfBadText.NothingAfterKey` | py_modules/vdf/__init__.py:182-184 | and a key alone on its line at the end of the text |
| `VdfBadText.OpenKeyAtEnd` | py_modules/vdf/__init__.py:123-132 | and a key whose quote is not closed, over any number of lines |
| `VdfBadText.OpenValueAtEnd` | py_modules/vdf/__init__.py:165-174 | and a value whose quote is not closed |
| `VdfBadText.BadStart` | py_modules/vdf/__init__.py:123-132 | and a line that begins with none of the characters that a line can begin with, whatever follows |
| `VdfText.MergingParse` | py_modules/vdf/__init__.py:149-178 | with a plain dict the text of any document reads as the dict that has at every path the leaf or the mapping that the assignments leave there in their order, and nothing at every other path |
| `VdfLoadable.MergeIntoAppends` | py_modules/vdf/__init__.py:149-178 | reading pairs that are kept apart from what is there appends them unchanged, at every depth |
| `VdfLoadable.LoadedExactly` | py_modules/vdf/__init__.py:149-178 | the documents that reading gives back are exactly those that some load leaves |
| `VdfLoadable.PlainLoadable` | py_modules/vdf/__init__.py:149-178 | for a plain dict they are the documents with distinct keys at every level |
| `VdfLoadable.MultiLoadable` | py_modules/vdf/__init__.py:149-178 | for a `VDFDict` that does not merge they are all documents |
| `VdfMerge.MergeMeaning` | py_modules/vdf/__init__.py:149-178 | merging loads mean: mappings merge, a later leaf replaces, a leaf above a path removes what was there; whether a path has a leaf, a mapping or nothing is stated by assignment order alone |
| `VdfMerge.MergePairMeaning` | py_modules/vdf/__init__.py:149-178 | the same for one pair, a leaf or a mapping with everything in it |
| `VdfLoader.Loader.PutNew` | py_modules/vdf/__init__.py:178 | a leaf or a new mapping stored in the top dictionary changes the nested picture of the whole stack at its key in the innermost open mapping, and nowhere else |
| `VdfLoader.Loader.SetLeaf` | py_modules/vdf/__init__.py:178 | storing a leaf in place is the value-level store |
| `VdfLoader.Loader.Table` | py_modules/vdf/__init__.py:149-158 | finds, replaces or makes the dictionary under a key exactly as the value-level opening does |
| `VdfLoader.Loader.Push` | py_modules/vdf/__init__.py:160-162 | the pushed dictionary is the one stored below, so later writes reach it |
| `VdfLoader.Loader.Pop` | py_modules/vdf/__init__.py:112-116 | leaving a dictionary leaves its content where it was stored |
| `VdfParser.MatchPair` | py_modules/vdf/__init__.py:122-132 | joins lines until the pattern matches a complete pair, or fails at the end of the text |
| `VdfParser.ApplyPair` | py_modules/vdf/__init__.py:146-178 | one pair changes the nested dictionaries as the value-level step says |
| `VdfParser.ParseLine` | py_modules/vdf/__init__.py:95-181 | one turn of the loop, with all its syntax errors, is one step of the specification |
| `VdfParser.Parse` | py_modules/vdf/__init__.py:68-187 | the loop over lines with its stack of aliased dictionaries returns the mapping, or raises the error, of the value-level parse, on every text |
| `VdfBinary.LoadDumped` | py_modules/vdf/__init__.py:444-489 | loading dumped pairs and then any bytes merges the pairs and goes on with the bytes, or fails where a mapping meets a leaf |
| `VdfBinary.LoadWritten` | py_modules/vdf/__init__.py:298-422 | what `binary_loads` makes of a written document followed by any bytes |
| `VdfBinary.BinaryRoundTrip` | py_modules/vdf/__init__.py:444-489 | `binary_loads(binary_dumps(x)) == x` in both end-marker formats, empty document included; duplicates survive with a non-merging `VDFDict` |
| `VdfBinary.ExtraBytesRejected` | py_modules/vdf/__init__.py:418-420 | a non-empty dump followed by extra bytes is rejected |
| `VdfLayout.WritesRecords` | py_modules/vdf/__init__.py:430-489 | the bytes that are written for every document: type bytes 0 to 7 and 10, keys in UTF-8, the j-th byte of a number its value divided by 256 to the j modulo 256, the end marker 8 or 11; an error exactly when a number is out of range |
| `VdfLayout.ReadsRecords` | py_modules/vdf/__init__.py:298-422 | what is read from any file of such bytes, whoever wrote it and whatever the decoders, wide strings included: byte order, signs, end markers, remaining bytes |
| `VdfLayout.UnknownTypeRaised` | py_modules/vdf/__init__.py:413-414 | every other type byte, the other format's end marker included, is an error |
| `VdfLayout.ShortNumberRaised` | py_modules/vdf/__init__.py:396-412 | so is a number of which bytes are missing |
| `VdfLayout.UnterminatedRaised` | py_modules/vdf/__init__.py:340-348 | so is a key or a text without its NUL |
| `VdfLayout.BadWideRaised` | py_modules/vdf/__init__.py:361-362 | so is a wide string that is not UTF-16 |
| `VdfLayout.EndOfFile` | py_modules/vdf/__init__.py:376-417 | a file that ends between pairs of the top level loads, and one that ends inside a mapping does not |
| `VdfBinary.WideReadsBack` | py_modules/vdf/__init__.py:340-375 | a wide string of even length is read back, with the bytes after it left, exactly when it holds no two adjacent zero bytes, within a character or across two |
| `VdfBinary.WideMisread` | py_modules/vdf/__init__.py:340-375 | two wide characters of which one is read, with the rest of the file shifted |
| `VdfBinary.InverseExists` | py_modules/vdf/__init__.py:363-375 | a decoder that undoes the UTF-8 encoding of every text exists |
| `Bytes.Utf8Injective` | py_modules/vdf/__init__.py:453-469 | no two texts have the same UTF-8 encoding |
| `Bytes.CodeOfUtf8` | py_modules/vdf/__init__.py:453-469 | each character has the shortest form: its length, its lead and continuation bytes, and the code point they spell |
| `Bytes.Utf8Concat` | py_modules/vdf/__init__.py:453-469 | a text is encoded character by character |
| `VdfBinaryMerge.MergesAlike` | py_modules/vdf/__init__.py:387-395 | a binary merge that meets no leaf where a mapping is read is the text merge, for all documents and mappers |
| `VdfBinaryMerge.BinaryMergeWithoutEmpty` | py_modules/vdf/__init__.py:387-395 | into any mapping, a document without empty mappings is refused exactly when some mapping is read where merging has left a leaf, and else merged as the text is |
| `VdfBinaryAgree.DifferAtDropped` | py_modules/vdf/__init__.py:387-395 | the binary and the text merge differ at exactly those paths where a mapping was assigned over a leaf and no leaf was assigned there or above later |
| `VdfBinaryAgree.PlainAgrees` | py_modules/vdf/__init__.py:387-395 | for plain dicts and all documents, empty mappings included, the binary merge is the text merge exactly when nothing is assigned below a leaf and no empty mapping is dropped for good |
| `VdfBinaryAgree.MultiAgrees` | py_modules/vdf/__init__.py:387-395 | for a merging `VDFDict`, exactly when no mapping, empty or not, is read where a leaf comes first |
| `VdfBinaryAgree.RefusedMulti` | py_modules/vdf/__init__.py:387-395 | for a merging `VDFDict` it is refused exactly when a mapping with something in it is read there |
| `VdfBinaryAgree.BinaryMergeAgrees` | py_modules/vdf/__init__.py:387-395 | for every document and mapper: when the binary merge is the text merge, and when it is refused |
| `VdfBinaryAgree.BinaryLoadAgrees` | py_modules/vdf/__init__.py:298-422 | the same for the files that `binary_dumps` writes |
| `VdfBinaryAgree.BinaryRoundTripExactly` | py_modules/vdf/__init__.py:298-489 | for every document and mapper, `binary_loads(binary_dumps(x)) == x` exactly when the text round trip holds and no mapping in `x` meets a leaf |
| `VdfBinaryMerge.BinaryMergeMeaning` | py_modules/vdf/__init__.py:387-395 | for plain dicts and all documents, empty mappings included: a binary merge is refused exactly when something is assigned below a leaf, and else has at each path what the assignments leave there |
| `VdfBinaryMerge.BinaryMergingLoad` | py_modules/vdf/__init__.py:298-422 | the same for the files that `binary_dumps` writes |
| `VdfBinaryMerge.BinaryMergeDiffers` | py_modules/vdf/__init__.py:387-395 | inputs on which the binary merge is refused or drops a mapping where the text merge keeps it |
| `VdfBinaryLoader.ReadString` | py_modules/vdf/__init__.py:340-375 | scanning in blocks of 64 bytes and seeking back is reading up to the first NUL, or to the first two adjacent ones rounded up to an even offset, wherever blocks fall |
| `VdfBinaryLoader.ReadLeaf` | py_modules/vdf/__init__.py:396-412 | a value of each type, wide strings included, is read from exactly its bytes, or the read fails |
| `VdfBinaryLoader.ReadPair` | py_modules/vdf/__init__.py:385-415 | one pair changes file and dictionaries as the value-level step says |
| `VdfBinaryLoader.ReadNext` | py_modules/vdf/__init__.py:378-415 | one turn of the loop over type bytes, end markers included |
| `VdfBinaryLoader.BinaryLoads` | py_modules/vdf/__init__.py:298-422 | the loop over a file with its stack of dictionaries returns the mapping, or raises the error, of the value-level load, on every byte string |
| `VdfTruncation.CutPairs` | py_modules/vdf/__init__.py:316-422 | the first n bytes of dumped pairs are accepted only at the top level and only between two pairs |
| `VdfTruncation.PairsBefore` | py_modules/vdf/__init__.py:444-489 | bytes that end between pairs are the dump of the pairs before the cut |
| `VdfTruncation.TruncationIsSafe` | py_modules/vdf/__init__.py:298-422 | every strict prefix of a dump is refused, or loads to exactly the whole pairs before the cut, the latter exactly when the cut falls between pairs |
| `OrderedPairs.NthIs` | py_modules/vdf/vdict.py:64-71 | `(i, key)` names the i-th pair with that key, in order, and nothing when there are not so many |
| `OrderedPairs.LookupAfterDelete` | py_modules/vdf/vdict.py:89-117 | deleting `(i, key)` moves the later duplicates down by one and changes no other lookup |
| `OrderedPairs.LookupAfterAppend` | py_modules/vdf/vdict.py:73-84 | adding a pair gives it the next free index of its key and changes no other lookup |
| `OrderedPairs.ValuesForIs` | py_modules/vdf/vdict.py:186-190 | the values listed for a key are those that its indices look up |
| `OrderedPairs.WithoutCount` | py_modules/vdf/vdict.py:192-202 | removing a key leaves none of its pairs and all others |
| `VdfDict.VDFDict.constructor` | py_modules/vdf/vdict.py:28-46 | a new dictionary is consistent and has the pairs it was given, or none |
| `VdfDict.VDFDict.Set` | py_modules/vdf/vdict.py:73-84 | a string-key set appends a pair; dict, order list and counts stay in step |
| `VdfDict.VDFDict.Get` | py_modules/vdf/vdict.py:86-87 | looks up the i-th pair with the key, or raises KeyError |
| `VdfDict.VDFDict.Remove` | py_modules/vdf/vdict.py:89-117 | removes exactly that pair, keeps the order of the rest and renumbers, so that the three structures are in step again |
| `VdfDict.VDFDict.Renumber` | py_modules/vdf/vdict.py:99-112 | the loop that closes the gap in one key's indices without touching another key |
| `VdfDict.VDFDict.Contains` | py_modules/vdf/vdict.py:122-123 | true exactly for indices 0 to count-1 |
| `VdfDict.VDFDict.SetDefault` | py_modules/vdf/vdict.py:142-145 | appends only when the key is missing, and returns the first value of the key |
| `VdfDict.VDFDict.Pop` | py_modules/vdf/vdict.py:147-151 | returns the named value and deletes its pair |
| `VdfDict.VDFDict.PopItem` | py_modules/vdf/vdict.py:153-157 | takes the last pair, whatever duplicates its key has |
| `VdfDict.VDFDict.Update` | py_modules/vdf/vdict.py:159-166 | appends all pairs in order |
| `VdfDict.VDFDict.Clear` | py_modules/vdf/vdict.py:134-137 | leaves the empty, consistent dictionary |
| `VdfDict.VDFDict.GetAllFor` | py_modules/vdf/vdict.py:186-190 | all values of a key in insertion order |
| `VdfDict.VDFDict.RemoveAllFor` | py_modules/vdf/vdict.py:192-202 | removes every pair of the key and only those, and stays consistent |
| `VdfDict.VDFDict.SetAt` | py_modules/vdf/vdict.py:77-84 | a tuple-key set replaces the value, and breaks the counts exactly when it succeeds; then some key is not counted once |
| `VdfDict.VDFDict.RepeatsKeys` | py_modules/vdf/vdict.py:204-211 | where the three structures are in step, the counts tell exactly whether a key is repeated |
| `VdfDict.VDFDict.Replay` | py_modules/vdf/vdict.py:73-202 | any history of string-key sets, defaults, updates, deletes, `popitem`, `remove_all_for` and `clear` acts as on a list of pairs, consistent throughout |
| `VdfDuplicates.HasDuplicatesExactly` | py_modules/vdf/vdict.py:204-221 | where the counts are right, duplicates are reported exactly when a key is repeated in the dictionary itself or along the chain of first nested dictionaries |
| `VdfDuplicates.RecurseExactly` | py_modules/vdf/vdict.py:213-219 | whatever the counts, the recursion reports those other than one along the chain of first nested dictionaries, and no others |
| `VdfDuplicates.HasDuplicatesSound` | py_modules/vdf/vdict.py:204-221 | where the counts are right and it reports duplicates, there are some |
| `VdfDuplicates.HasDuplicatesIncomplete` | py_modules/vdf/vdict.py:204-221 | a dictionary with duplicates for which it reports none |
| `VdfDuplicates.TupleSetMiscounts` | py_modules/vdf/vdict.py:77-84 | a dictionary of one pair for which it reports duplicates, after a set by a tuple |
| `ChunkedCodec.ParseHexOfHex` | py_modules/urllib3/response.py:1133-1149 | parsing a chunk-size line undoes printing it in hex, for every size |
| `ChunkedCodec.Request` | py_modules/urllib3/connection.py:447-464 | the sending loop puts the frames of the non-empty pieces and the last chunk on the wire, or the plain body |
| `ChunkedCodec.ReadFrames` | py_modules/urllib3/response.py:1173-1248 | reading whole chunks undoes framing and stops at the end of the message |
| `ChunkedCodec.AmountIrrelevant` | py_modules/urllib3/response.py:1151-1171 | on any bytes at all, reading in pieces of at most `amt` ends as reading whole chunks does: with the same bytes and the same rest on success; on failure with the same error, what whole chunks gave being a prefix of what the pieces give |
| `ChunkedCodec.CutChunk` | py_modules/urllib3/response.py:1151-1171 | a chunk that was cut short, of which sized reads yield the bytes that came and whole reads yield none |
| `ChunkedCodec.ChunkedRoundTrip` | py_modules/urllib3/response.py:1173-1248 | for every list of body pieces, every `amt` and whatever follows, the body comes back in non-empty pieces of at most `amt` bytes |
| `ChunkedMessages.ReadsMessage` | py_modules/urllib3/response.py:1133-1248 | any message, with sizes in either case, leading zeros, blanks, extensions, a bare LF after a size and trailer fields, gives the data of its chunks and leaves what follows it, read whole or by any size |
| `ChunkedMessages.SendsMessage` | py_modules/urllib3/connection.py:447-464 | the sender writes such a message: lower-case sizes without leading zeros, one chunk for each piece that is not empty, no extensions or trailer fields |
| `ChunkedMessages.BadSize` | py_modules/urllib3/response.py:1133-1149 | a size line with a byte that no number has is InvalidChunkLength |
| `ChunkedMessages.NothingThere` | py_modules/urllib3/response.py:1146-1149 | a connection that ends where a size line should be ended prematurely |
| `ChunkedReader.ChunkedResponse.UpdateChunkLength` | py_modules/urllib3/response.py:1133-1149 | reads a size line only between chunks, and closes on a bad one |
| `ChunkedReader.ChunkedResponse.HandleChunk` | py_modules/urllib3/response.py:1151-1171 | the three cases of `amt` against the rest of the chunk, each taking the CRLF when the chunk ends |
| `ChunkedReader.ChunkedResponse.DiscardTrailer` | py_modules/urllib3/response.py:1234-1241 | drops the lines after the last chunk up to the empty one |
| `ChunkedReader.ChunkedResponse.ReadChunked` | py_modules/urllib3/response.py:1173-1248 | terminates and yields what the specification says, with the fields and the stream position it leaves |
| `BufferedBody.BytesQueueBuffer.Put` | py_modules/urllib3/response.py:252-254 | appends bytes to the queue; `_size` is the number of bytes |
| `BufferedBody.BytesQueueBuffer.Get` | py_modules/urllib3/response.py:256-284 | takes the first n bytes, or all there are, whatever the pieces; the error cases |
| `BufferedBody.BufferedResponse.Read` | py_modules/urllib3/response.py:942-988 | exactly `amt` bytes of the decoded stream, fewer only at its end; with lengths enforced, neither a short read nor an error except as the announced length tells |
| `BufferedBody.BufferedResponse.RawRead` | py_modules/urllib3/response.py:864-914 | some bytes of the wire up to the size, none only at its end, where a wrong length is IncompleteRead if lengths are enforced; without a size all the rest, or an error exactly when it is shorter than announced |
| `BufferedBody.BufferedResponse.ReadSeries` | py_modules/urllib3/response.py:916-988 | any series of sized reads returns consecutive cuts of one flat stream, and never takes a body of the wrong length for a whole one when lengths are enforced |
| `BufferedBody.CutsJoin` | py_modules/urllib3/response.py:916-988 | such cuts join to the next bytes of the stream, each of its size unless the stream has ended |
| `BufferedBody.BufferedResponse.ReadAll` | py_modules/urllib3/response.py:957-966 | an unsized read fails exactly when the body is shorter than announced and this was not found out before; else it is the rest of the stream exactly when nothing is buffered |
| `BufferedBody.BufferedByteLost` | py_modules/urllib3/response.py:957-966 | a body of which `read(1)` and then `read()` return only the first of two bytes |
| `Lines.KeepEndsUnique` | py_modules/urllib3/response.py:1263-1278 | the lines of a body are the only way to cut it into pieces that end at their only newline |
| `Lines.Iter` | py_modules/urllib3/response.py:1263-1278 | `__iter__` gives the lines of the whole body for every division into chunks (`stream` yields no empty ones), and they concatenate to it |
| `Lines.IterLines` | py_modules/requests/models.py:853-885 | `iter_lines` without a delimiter gives the lines of the text cut only where a "\r\n" is split between chunks |
| `Lines.TakePending` | py_modules/requests/models.py:876-879 | comparing last bytes finds out exactly whether the last line is still open |
| `Lines.IterLinesIsSplit` | py_modules/requests/models.py:853-885 | the lines equal `splitlines` of the whole exactly when no "\r\n" is split; each split adds one line |
| `Lines.BreakIsSplit` | py_modules/requests/models.py:853-885 | "\r\n" in two chunks gives two lines, in one chunk one |
| `Lines.IterLinesOfLF` | py_modules/requests/models.py:853-885 | with "\n" as the only break, every chunking gives the split of the whole text |
| `PoolProtocol.PutKeeps` | py_modules/urllib3/connectionpool.py:294-335 | whoever holds a slot finds room for it in the queue |
| `PoolProtocol.GetKeeps` | py_modules/urllib3/connectionpool.py:256-292 | taking a slot moves it from the queue to the taker, with a connection nobody else has |
| `PoolProtocol.FinishKeeps` | py_modules/urllib3/connectionpool.py:803-863 | the finally block gives the slot back, or hands it to the response, in every outcome of the request |
| `PoolProtocol.ReleaseKeeps` | py_modules/urllib3/response.py:641-646 | releasing gives the slot back once; again does nothing |
| `PoolProtocol.RejectKeeps` | py_modules/urllib3/connectionpool.py:763-863 | the put of a call that took nothing keeps the slots conserved exactly when the pool does not block or is closed |
| `PoolProtocol.CallKeeps` | py_modules/urllib3/connectionpool.py:763-958 | a step of one call among others keeps the invariant exactly when it is not a rejected timeout in an open blocking pool |
| `PoolProtocol.NextKeeps` | py_modules/urllib3/connectionpool.py:763-958 | each step keeps the invariant; in a blocking pool, each but a rejected timeout |
| `PoolProtocol.RunKeeps` | py_modules/urllib3/connectionpool.py:763-958 | in every interleaving, with valid timeouts if the pool blocks: queued slots plus held slots are `maxsize` until `close` when blocking, `FullPoolError` is never met, a retrying or redirecting call holds nothing, no connection is shared, queued twice or left open outside the queue and the holders |
| `PoolProtocol.NotShared` | py_modules/urllib3/connectionpool.py:763-958 | a connection held by one call or its response is held by no other and is not queued |
| `PoolProtocol.RejectedTimeout` | py_modules/urllib3/connectionpool.py:763-863 | in any state that meets the invariant, a call whose timeout is rejected keeps the invariant exactly when the pool does not block or is closed |
| `PoolProtocol.RejectedTimeoutHarms` | py_modules/urllib3/connectionpool.py:763-863 | a run in which a call with a valid timeout meets FullPoolError because another had an invalid one |
| `PoolProtocol.AloneIsRun` | py_modules/urllib3/connectionpool.py:763-958 | a whole urlopen with its retries is a run of the protocol's steps |
| `PoolProgress.CallSucceeds` | py_modules/urllib3/connectionpool.py:763-958 | a call with valid timeouts, in a pool with a slot for it, returns exactly when its attempts come to a response that is kept, every earlier one having been retried: a retry always gets a connection |
| `PoolProgress.LastPutIsNext` | py_modules/urllib3/connectionpool.py:256-335 | the connection put back last is the next one taken |
| `PoolProgress.FinishedIsReused` | py_modules/urllib3/connectionpool.py:842-863 | so a finished request's connection serves the next call |
| `PoolProgress.ClosedOrKept` | py_modules/urllib3/connectionpool.py:820-863 | connections of failed requests and of responses not read to the end are closed, others are kept exactly when there is room |
| `ConnectionPool.HTTPConnectionPool.constructor` | py_modules/urllib3/connectionpool.py:201-208 | the queue starts with `maxsize` empty slots |
| `ConnectionPool.HTTPConnectionPool.GetConn` | py_modules/urllib3/connectionpool.py:256-292 | the slot on top of the queue, a new connection or an error, as the protocol's step says |
| `ConnectionPool.HTTPConnectionPool.PutConn` | py_modules/urllib3/connectionpool.py:294-335 | back on the queue, closed, or FullPoolError, as the protocol's step says |
| `ConnectionPool.HTTPConnectionPool.Close` | py_modules/urllib3/connectionpool.py:558-568 | every queued connection is closed and the pool is disabled |
| `ConnectionPool.HTTPConnectionPool.CleanUp` | py_modules/urllib3/connectionpool.py:842-863 | the finally block closes and forgets the connection after an unclean exit, and puts back what is to be released |
| `ConnectionPool.HTTPConnectionPool.TryRequest` | py_modules/urllib3/connectionpool.py:763-863 | the try statement with its flags takes the steps of one attempt, rejected timeouts and failed gets included |
| `ConnectionPool.HTTPConnectionPool.UrlOpen` | py_modules/urllib3/connectionpool.py:763-958 | with its retries, urlopen takes exactly the steps of the protocol and returns a response that holds the connection only if it was not released |
| `ConnectionPool.HTTPResponse.ReleaseConn` | py_modules/urllib3/response.py:641-646 | gives the connection back once |
| `ConnectionPool.HTTPResponse.DrainConn` | py_modules/urllib3/response.py:648-657 | draining releases the connection, closed first if the read failed |
| `RecentlyUsed.RecentlyUsedContainer.Get` | py_modules/urllib3/_collections.py:93-98 | the value, with its key moved to the end of the line; a miss changes nothing |
| `RecentlyUsed.RecentlyUsedContainer.Set` | py_modules/urllib3/_collections.py:100-123 | the new line and the value disposed of; every value inserted is held or disposed of, once |
| `RecentlyUsed.RecentlyUsedContainer.Delete` | py_modules/urllib3/_collections.py:125-130 | removes the pair and disposes of its value, once |
| `RecentlyUsed.RecentlyUsedContainer.Clear` | py_modules/urllib3/_collections.py:141-149 | disposes of everything held, oldest first |
| `RecentlyUsed.PutFacts` | py_modules/urllib3/_collections.py:100-123 | a set keeps the last `maxsize` keys of the line in which the key has moved to the end, and loses one value at most |
| `RecentlyUsed.HoldsMostRecent` | py_modules/urllib3/_collections.py:93-123 | after any run of sets and gets the keys are the `maxsize` most recently touched, in order of last touch |
| `RecentlyUsed.HeldExactly` | py_modules/urllib3/_collections.py:93-123 | a key is held exactly when fewer than `maxsize` other keys were touched since it was |
| `Redirects.KeepsAuthExactly` | py_modules/requests/sessions.py:127-157 | credentials are kept exactly when host, scheme and effective port agree, or plain HTTP becomes HTTPS on standard ports |
| `Redirects.ResolveRedirects` | py_modules/requests/sessions.py:159-281 | the loop that rewrites one request into the next gives the chain of the specification, with each error that ends it |
| `Redirects.ChainIsBounded` | py_modules/requests/sessions.py:159-281 | at most `max_redirects` follow-ups, for every server; no error exactly when the last response asks for no redirect, TooManyRedirects exactly when the last of `max_redirects` follow-ups still asks for one |
| `RedirectRules.ChainEnds` | py_modules/requests/sessions.py:107-281 | how every chain ends, over status and location: without an error exactly when the last response has no location, an empty one, or a status other than 301, 302, 303, 307 and 308; and when TooManyRedirects, InvalidUrl, UnrewindableBody or a failed send stops it |
| `RedirectRules.NextIs` | py_modules/requests/sessions.py:159-281 | every further request goes to the URL located from the last one by its response's location, with the cookie and proxy headers made for it and no older ones |
| `Redirects.VerbOnChain` | py_modules/requests/sessions.py:334-354 | HEAD stays HEAD, GET stays GET, any other method is GET exactly after the first response that turns it |
| `Redirects.BodyOnChain` | py_modules/requests/sessions.py:221-231 | the body and its headers are sent exactly until the first response other than 307 and 308, and never return |
| `Redirects.AuthorizationOnChain` | py_modules/requests/sessions.py:283-300 | Authorization is present exactly if it was at first and no hop stripped it |
| `Redirects.AuthorizationStaysHome` | py_modules/requests/sessions.py:127-157 | over a chain of any length it only reaches the first host, on the first origin or its standard HTTPS upgrade |
| `Redirects.OtherHeadersOnChain` | py_modules/requests/sessions.py:175-262 | every header that is not rebuilt is sent unchanged |
| `Redirects.FragmentOnChain` | py_modules/requests/sessions.py:203-210 | a fragment is replaced but never lost, and is carried as it was received while no location has its own |
| `Requote.UnquoteUnreserved` | py_modules/requests/utils.py:635-658 | the indexed loop over the parts between '%' computes the specification, or raises InvalidURL at the first bad escape |
| `Requote.UnquoteIsScan` | py_modules/requests/utils.py:635-658 | working on parts is the same as scanning from left to right |
| `Requote.RequoteMeaning` | py_modules/requests/utils.py:661-678 | the octets are kept exactly when no stray '%' comes to stand before two hex digits; the fallback stands for the raw characters |
| `Requote.FixedExactly` | py_modules/requests/utils.py:661-678 | exactly which URIs requoting leaves alone |
| `Requote.RequoteTwice` | py_modules/requests/utils.py:661-678 | exactly when requoting twice is requoting once |
| `Requote.RequoteWellFormed` | py_modules/requests/utils.py:661-678 | when every '%' begins an escape, the octets are kept and the result is a fixed point |
| `Requote.RequoteFallback` | py_modules/requests/utils.py:673-678 | the fallback stands for the raw input and is a fixed point |
| `RequoteText.RequoteIs` | py_modules/requests/utils.py:628-678 | what becomes of every character and escape of any URI, with the characters of sections 2.1 to 2.3 of RFC 3986 listed |
| `RequoteText.RequoteSpelled` | py_modules/requests/utils.py:628-678 | when every '%' begins an escape, each character and escape by itself |
| `RequoteText.DelimitersStay` | py_modules/requests/utils.py:667-672 | a delimiter of section 2.2 stays as it is, and nothing else becomes one |
| `RequoteText.EscapesUndone` | py_modules/requests/utils.py:628-658 | the escapes that become characters are exactly those of letters, digits, '-', '.', '_' and '~' |
| `RequoteText.CharactersEscaped` | py_modules/requests/utils.py:667-678 | the characters that are escaped are exactly the illegal ones, in upper case |
| `RequoteText.LeftAlone` | py_modules/requests/utils.py:661-678 | a URI is left alone exactly when it is made of reserved and unreserved characters and of escapes of other octets |
| `Requote.StrayPercent` | py_modules/requests/utils.py:645-657 | "%%341" changes its octets, and changes again when requoted |
| `FlatJson.FlattenMeaning` | scripts/translate_at_build.py:123-144 | the flat form of plain sections has a dotted key for each string, found by looking its path up, and no other |
| `FlatJson.InsertKey` | scripts/translate_at_build.py:154-166 | the cursor that walks down a key's parts, opening sections or stopping at a leaf, stores the value at the key's path |
| `FlatJson.Unflatten` | scripts/translate_at_build.py:147-167 | the loop over keys builds the document of the specification |
| `FlatJson.UnflattenFlatten` | scripts/translate_at_build.py:123-167 | unflattening gives back the nested dict that was flattened, order included |
| `FlatJson.SurvivingKeys` | scripts/translate_at_build.py:147-167 | in any insertion order the keys that survive unflattening are those to which no other key leads, each with its own value |
| `FlatJson.LeadsIsDottedPrefix` | scripts/translate_at_build.py:154-166 | a key leads to exactly those that begin with it and a dot |
| `FlatJson.LaterKeyWins` | scripts/translate_at_build.py:154-166 | of "a.b" and "a" the second survives, and of "a" and "a.b" the first |
| `FlatJson.FlattenUnflatten` | scripts/translate_at_build.py:123-167 | flattening gives back the flat dict that was unflattened, in any insertion order, exactly when no key leads to another |
| `Translator.ChangedGet` | scripts/translate_at_build.py:205-218 | a key is reported exactly when the cache does not hold the hash of its value |
| `Translator.DeletedExactly` | scripts/translate_at_build.py:221-225 | the keys reported are those of the cache that the source lacks |
| `Translator.TranslateForLocale` | scripts/translate_at_build.py:175-197 | every key gets the translation of its own text, and every text is sent once, in order, in requests of at most 25 texts |
| `Translator.BuildNewCache` | scripts/translate_at_build.py:228-248 | fresh hashes for what was translated, old ones for the rest, none for deleted keys |
| `Translator.DiffMeaning` | scripts/translate_at_build.py:205-225 | with an injective hash the reports are the difference between the source and the one the cache was made for |
| `Translator.UpdateMakesTarget` | scripts/translate_at_build.py:277-311 | updating a target of the old source, or of the new one, makes it a target of the new one, through nesting and flattening |
| `Translator.AbandonedEdit` | scripts/translate_at_build.py:277-311 | after a stopped run and another edit the file written for a target is up to date exactly when the abandoned edit was harmless: each string that the new source has as the cached one had it was translated alike, or is gone because a key of the new source leads to it |
| `Translator.RevertedEdit` | scripts/translate_at_build.py:277-311 | a reverted edit that leaves the target with the abandoned translation |
| `Translator.Project.UpdateOneTarget` | scripts/translate_at_build.py:277-311 | the file of one locale and no other gets the updated content |
| `Translator.Project.ApplyTranslations` | scripts/translate_at_build.py:414-427 | a run that is stopped has updated the targets before the stop and no other |
| `Translator.Project.Translate` | scripts/translate_at_build.py:435-481 | success leaves every target and the cache as a full translation would; exit 1 exactly when changes lack a key, with nothing written; a run stopped anywhere, also between the last target and the cache, can be resumed |
| `Translator.Replay` | scripts/translate_at_build.py:435-481 | over any sequence of edits, with stopped and keyless runs in between, incremental equals full translation |
| `TrelloSync.Trackers.SyncTheState` | scripts/sync_to_trello.py:140-172 | the search for the "Done" list and the three cases of step 1 |
| `TrelloSync.Trackers.SyncMove` | scripts/sync_to_trello.py:184-202 | the latest move is commented on unless it is known or suppressed |
| `TrelloSync.Trackers.SyncToIssue` | scripts/sync_to_trello.py:206-217 | posts the card's comments that the issue lacks, each once |
| `TrelloSync.Trackers.SyncToCard` | scripts/sync_to_trello.py:219-228 | posts the issue's comments that the card lacked |
| `TrelloSync.Trackers.SyncCard` | scripts/sync_to_trello.py:135-228 | one run leaves the state and makes the calls of the specification |
| `TrelloSync.IssueCovered` | scripts/sync_to_trello.py:204-217 | after a run every comment of the card that is to be mirrored is on the issue |
| `TrelloSync.CardCovered` | scripts/sync_to_trello.py:219-228 | and every comment of the issue on the card |
| `TrelloRules.CardToldOnIssue` | scripts/sync_to_trello.py:204-217 | the text on the issue, word for word: it names the author of the card's comment and ends in what was said |
| `TrelloRules.IssueToldOnCard` | scripts/sync_to_trello.py:219-228 | the same on the card for the issue's comments |
| `TrelloRules.MoveTold` | scripts/sync_to_trello.py:184-202 | the text that tells the latest move, with its author and list, is on the issue after a run unless it is suppressed |
| `TrelloRules.TextsDiffer` | scripts/sync_to_trello.py:194-226 | equal texts of one author tell equal comments, or moves to equal lists |
| `TrelloRules.PostedOnce` | scripts/sync_to_trello.py:184-217 | what a run posts to the issue was not there, and is posted once |
| `TrelloRules.DoneListIs` | scripts/sync_to_trello.py:140-145 | the "Done" list is the first whose name is "done" in any case |
| `TrelloSync.SecondRunPostsNothing` | scripts/sync_to_trello.py:135-228 | from the second run on no comment is posted, from any state |
| `TrelloSync.ThirdRunCallsNothing` | scripts/sync_to_trello.py:135-228 | from the third run on no writing call is made and nothing changes |
| `TrelloSync.SidesAgree` | scripts/sync_to_trello.py:147-172 | after two runs issue and card agree, and a closed issue's card is in "Done" |
| `TrelloRules.OneRun` | scripts/sync_to_trello.py:147-172 | what one run makes of state, completion and list: a closed issue's card is complete and in "Done", a complete card's issue is closed, and nothing else changes |
| `TrelloRules.OneRunCalls` | scripts/sync_to_trello.py:147-172 | the calls of step 1: exactly what is needed for that |
| `TrelloSync.NothingLost` | scripts/sync_to_trello.py:135-228 | a run adds to both histories and takes nothing away |
| `TrelloSync.NeverMirroredBack` | scripts/sync_to_trello.py:204-228 | in no run is a comment mirrored back that a run had mirrored |

## Left out

- VdfText.TextRoundTrip: for strings as leaves and `escaped=True`; with `escaped=False` the printer gives no round trip for text with quotes, and other leaves print as text.
- VdfFreeText.ParseFreeText: for texts whose last line has its line end; of those without, one pair on one line is treated (`VdfBadText.OnePair`). Byte order marks in front are ignored (`VdfBadText.BomIgnored`).
- VdfBinary.BinaryRoundTrip: floats are their 32 bits, so the rounding of other floats is not modelled; wide strings are read but never written, because the encodable strings of Python 3 are all UTF-8; a bool leaf is not a case of its own.
- VdfBinary.LoadWritten: invalid UTF-8 is whatever the decoder parameter makes of it; the UTF-16 decoder is a parameter too, and may fail.
- VdfText.MergingParse: says what is at every path, not the order of keys, which equality of plain dicts ignores.
- VdfDict.VDFDict.SetAt: breaks the invariant, so `Replay` covers histories without it.
- ChunkedReader.ChunkedResponse.ReadChunked: not for `amt` 0, which never advances; HEAD responses, responses that are closed already and content decoding return before or after the modelled loop.
- BufferedBody.BufferedResponse.ReadAll: stated for what it returns, which after sized reads lacks the buffered bytes; http.client's error for a short body is the modelled one; `read1`, `readinto` and the flush of real codecs are not modelled.
- Lines.IterLines: on bytes, without a delimiter; `str.splitlines` has further line breaks.
- PoolProtocol.RunKeeps: a blocking pool is given valid timeouts, because `RejectedTimeout` shows that others break the property; one get or put is one step, so the race between an unfinished `_put_conn` and `close` is not modelled; a wait in `get` is the step at which it ends; retries, timeouts and proxies are arbitrary choices of the plan.
- RecentlyUsed.RecentlyUsedContainer.Set: one thread; the lock, and disposal after it is released, are not modelled.
- Redirects.ResolveRedirects: splitting, quoting and resolving a location, cookies and proxy headers are parameters; hooks and netrc are off.
- Requote.RequoteMeaning: for ASCII URIs; other characters bring in Unicode digits and UTF-8.
- FlatJson.InsertKey: the cursor and the sections around it are values that are put together again, where the source moves a reference through nested dictionaries.
- Translator.Project.Translate: files are their documents, so JSON printing, sorted keys, corrupt caches and half-written files are not modelled; the list of locales is fixed.
- TrelloSync.Trackers.SyncCard: fetches are complete and posts succeed; creating cards and the outer loop over issues are not modelled.
- `VDFDict`'s views, `vbkv_loads` and `vbkv_dumps`, `steamgrid`, `certifi`, the Decky plugin and the React interface.
- Sockets, TLS, proxies, DeepL and Trello HTTP, command lines and logging.
- `Retry`, `Timeout`, `parse_url`, `HTTPHeaderDict`, `charset_normalizer`, the lint and CI scripts: they would add easier members only, or tables.

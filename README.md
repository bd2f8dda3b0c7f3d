# httpfromtcp core in Dafny

This project models the HTTP/1.1 engine of `httpfromtcp`, which is built directly
on a byte stream. It covers four parts:

- **Header table** (`Headers`). A map from lower-cased field names to values.
  `Set` folds a repeated name onto the stored value with `", "`. `Get` is
  case-insensitive. `Parse` reads one CRLF-terminated field line at a time and
  checks the name against the token characters.
- **Request parser** (`StartLine`, `Parser`, `Request`). It has four stages:
  request-line, headers, body, done.
  - `parseSingle` runs one step of the current stage.
  - `parse` repeats steps until the request is done, a step fails, or a step
    makes no progress.
  - `RequestFromReader` reads the stream into a buffer. The buffer starts at 8
    bytes and doubles when full. After each read the loop parses the buffer and
    shifts the unparsed bytes to the front.
  - The body is framed by Content-Length, as in section 6.3 of RFC 9112.
- **Response helpers** (`Response`):
  - the status line and its reason phrase;
  - the default header table;
  - the header block, written from a map in the map's iteration order.
- **Response writer** (`Writer`). A state machine that only accepts the parts of
  a response in order: status line, headers, then a whole body or a sequence of
  chunks ended by the last chunk, then trailers. The chunked transfer coding
  follows section 7.1 of RFC 9112.

Where the source works by pure computation, the model has functions and lemmas.
Where the source changes objects in place, the model has classes with
`modifies` clauses, each method proved against a specification function:

- the request is a `Request` class;
- the header table is a `Headers` class;
- the writer is a `Writer` class;
- the reader's buffer is an `array<char>`.

The main results are:

- **Request parser:**
  - `parse` is a pure function `Drive`. `Request.Parse` and `Request.ParseSingle`
    are proved to move the object exactly as `Drive` and `Step` say.
  - Every well-formed request in wire form is read back whole (`RequestRoundTrip`).
  - However the stream is cut into reads, `RequestFromReader` returns the request
    that `parse` makes of the whole stream, whenever that stream completes one.
  - An error never goes away when more bytes arrive.
  - A finished request does not change when more bytes arrive, unless those
    bytes cause an error.
- **Headers:** a header block written by `WriteHeaders` is parsed back as the
  same table.
- **Status line:** a status line reads back as its code.
- **Writer:** the writer accepts a sequence of calls exactly when the calls come
  in response order.
- **Chunked encoding:** non-empty chunks written read back as the concatenated body. A chunk write of no bytes ends the body early (see "## Findings").

A Go `[]byte` and a Go `string` are both modelled as a Dafny `string`, one
`char` per octet. The files are:

| file | module |
|---|---|
| `text.dfy` | the parts of Go's `bytes`, `strings`, `strconv` and `fmt` the engine uses |
| `headers.dfy` | `Headers` |
| `start_line.dfy` | `StartLine` |
| `parser.dfy` | `Parser` |
| `request.dfy` | `Request` |
| `response.dfy` | `Response` |
| `writer.dfy` | `Writer` |

## Model

| member | source | states |
|---|---|---|
| Text.IndexOfCrlf | internal/headers/headers.go:23 | the result is -1 exactly when there is no CRLF; otherwise a CRLF starts there and none starts before it |
| Text.IndexOfCrlfExtend | internal/request/request.go:99 | appending bytes after the first CRLF does not move it |
| Text.IndexOfChar | internal/headers/headers.go:34 | -1 exactly when the character is absent; otherwise its position, with no earlier occurrence (the boundary of `SplitN(..., ":", 2)`) |
| Text.Split | internal/request/request.go:119 | at least one piece; no piece contains the separator; joining the pieces with the separator gives the input back |
| Text.SplitJoin | internal/request/request.go:119 | splitting a join of separator-free pieces gives the pieces back |
| Text.ToLower | internal/headers/headers.go:35 | same length; every upper-case ASCII letter becomes its lower-case letter (32 code points on) and every other character is unchanged |
| Text.ToLowerIdempotent | internal/headers/headers.go:58 | lower-casing twice is lower-casing once, so `Set` re-lowering a parsed key changes nothing |
| Text.TrimSpace | internal/headers/headers.go:43-44 | the result neither starts nor ends with ASCII white space and is no longer than the input |
| Text.TrimSpaceStrips | internal/headers/headers.go:43-44 | trimming white space, a trimmed string, and white space gives exactly that string |
| Text.TrimSpaceSplits | internal/headers/headers.go:43-44 | every string is its trimmed form with white space before and after it; with TrimSpaceStrips this says the result is the input minus its outer white space |
| Text.TrimSpaceAfterPad | internal/headers/headers.go:43-44 | trimming white space followed by an already-trimmed string gives that string |
| Text.NatToDigits | internal/response/response.go:40 | a non-empty numeral of valid digits without a leading zero |
| Text.DigitsRoundTrip | internal/response/writer.go:127 | reading a written numeral back gives the number, in every base up to 16 |
| Text.Itoa | internal/response/response.go:40 | `%d` writes at least one character |
| Text.Hex | internal/response/writer.go:127 | `%x` writes a non-empty hexadecimal numeral with no blank or line break |
| Text.Atoi | internal/request/request.go:215 | a result is always within int64; the empty string is an error |
| Text.AtoiSigned | internal/request/request.go:215 | an optional `+` or `-`, then one or more decimal digits, reads as the signed value of the digits when it fits in an int64, and is an error otherwise |
| Text.AtoiNumeral | internal/request/request.go:215 | every string `strconv.Atoi` accepts is an optional sign followed by one or more decimal digits; anything else is an error |
| Text.AtoiItoa | internal/request/request.go:215 | `strconv.Atoi` reads back what `%d` writes, for every int64 |
| Text.HexRoundTrip | internal/response/writer.go:127 | a chunk size written by `%x` reads back as the size |
| Headers.ValidTokens | internal/headers/headers.go:81-90 | true exactly when every character is a letter, a digit or one of the token punctuation characters |
| Headers.SetField | internal/headers/headers.go:57-68 | the keys become the old keys plus the lower-cased key; every other entry is kept; a table with lower-case keys stays so |
| Headers.LookupCaseInsensitive | internal/headers/headers.go:71-74 | `Get` gives the same value for a key and its lower-cased form |
| Headers.LookupAfterSetAbsent | internal/headers/headers.go:57-74 | after `Set` of an absent key, every casing of it looks up the new value |
| Headers.LookupAfterSetPresent | internal/headers/headers.go:57-74 | after `Set` of a present key, it looks up the old value, `", "` and the new value |
| Headers.LookupAfterSetOther | internal/headers/headers.go:57-74 | `Set` of one key does not change what any other key looks up |
| Headers.ParseFieldLine | internal/headers/headers.go:21-31 | need more data exactly when there is no CRLF; end of headers exactly when the CRLF is at the front; a field consumes the line and its CRLF |
| Headers.ParseLine | internal/headers/headers.go:34-52 | a complete line is either a field or an error, and a field consumes the line plus 2 |
| Headers.CheckName | internal/headers/headers.go:45-52 | a field exactly when the trimmed name is a token; otherwise the invalid-token error naming it |
| Headers.ParseLineField | internal/headers/headers.go:35-52 | an accepted line yields a lower-case token name and a trimmed value |
| Headers.ParseFieldLineField | internal/headers/headers.go:21-52 | the same for the line at the front of the data |
| Headers.ParseFieldLineAccepts | internal/headers/headers.go:21-52 | `pad name:value CRLF` with a token name is accepted with the lower-cased name and the trimmed value, consuming exactly the line and its CRLF |
| Headers.ParseFieldLineRejectsSpaceBeforeColon | internal/headers/headers.go:38-40 | a blank right before the colon is the invalid-name error, whatever follows |
| Headers.ParseFieldLineExtend | internal/headers/headers.go:23-31 | bytes after the first CRLF do not change what is parsed |
| Headers.FieldLineRoundTrip | internal/headers/headers.go:21-52 | a line written as `name: value CRLF` is parsed back as the same name and value, consuming the line |
| Headers.SetFieldsRebuilds | internal/headers/headers.go:57-68 | setting every key of a lower-case table, in any order, onto an empty table rebuilds the table |
| Headers.Headers.constructor | internal/headers/headers.go:15-17 | a new table is empty |
| Headers.Headers.Set | internal/headers/headers.go:57-68 | the table becomes `SetField` of the old table, and keys stay lower-case |
| Headers.Headers.Parse | internal/headers/headers.go:21-53 | for each outcome of `ParseFieldLine`: bytes consumed, the done flag, the error, and the table (changed only for a field, by `Set`) |
| StartLine.RequestLineFromString | internal/request/request.go:118-155 | an accepted line has version 1.1 and an upper-case method |
| StartLine.RequestLineAccepted | internal/request/request.go:118-155 | an accepted line is exactly `method SP target SP HTTP/1.1`, with no blank in the method or the target |
| StartLine.RequestLineRoundTrip | internal/request/request.go:118-155 | every upper-case method and blank-free target with version 1.1, formatted, is accepted and read back unchanged |
| StartLine.ParseRequestLine | internal/request/request.go:97-115 | pending exactly when there is no CRLF; a parsed or refused line is what the validator says of the text before the first CRLF; a parsed line consumes it and the CRLF |
| StartLine.ParseRequestLineExtend | internal/request/request.go:97-115 | bytes after the CRLF do not change the result |
| StartLine.ParseRequestLineRoundTrip | internal/request/request.go:97-115 | a well-formed line and CRLF are parsed back, consuming both |
| Parser.StepStartLine | internal/request/request.go:178-192 | progress only at a CRLF, consuming the line and the CRLF and moving to the header stage; an error leaves the request unchanged |
| Parser.StepHeaders | internal/request/request.go:194-204 | stays in the header stage, or moves to the body stage exactly at an empty line, consuming 2 bytes; an error consumes nothing and changes nothing |
| Parser.StepBody | internal/request/request.go:206-227 | without Content-Length: done, with all data consumed. With it: the data is appended; a non-numeral is an error; a body longer than the value is an error; a body of exactly that length is done |
| Parser.Step | internal/request/request.go:176-237 | never consumes more than given; consumes nothing on error; moves at most one stage forward; a step on a done request is the read-after-done error; an idle step changes nothing |
| Parser.Run | internal/request/request.go:158-173 | never reports more bytes than given; reports 0 on error; does nothing on a done request |
| Parser.RunForward | internal/request/request.go:158-173 | `parse` never moves the request to an earlier stage |
| Parser.RunStopsIdle | internal/request/request.go:158-173 | when `parse` stops short of done without error, the next step would make no progress |
| Parser.RunAppend | internal/request/request.go:158-173 | giving d and then e is giving d + e, while d alone neither fails nor finishes |
| Parser.RunResume | internal/request/request.go:158-173 | `parse` on the leftover bytes of c plus new ones continues the run on c plus those bytes |
| Parser.RunErrorPersists | internal/request/request.go:158-173 | an error stays the same error however many bytes follow |
| Parser.RunDoneExtend | internal/request/request.go:158-173 | once a request is done, more bytes either cause an error or leave it as it was |
| Parser.StepLineExtend | internal/request/request.go:178-204 | in the line stages, bytes after the first CRLF do not change a step |
| Parser.BodyAppend | internal/request/request.go:206-227 | body bytes given in two calls land where they would in one |
| Parser.BodyDone | internal/request/request.go:219-225 | a body that reached its Content-Length stays the same only if nothing more arrives |
| Parser.StepLawful | internal/request/request.go:176-237 | `parseSingle` obeys every law the properties of `parse` rely on |
| Parser.DriveErrorPersists | internal/request/request.go:163-165 | a parse error stays an error, and the request never completes, however many bytes follow |
| Parser.DriveDoneExtend | internal/request/request.go:158-173 | a completed request is unchanged by further bytes that cause no error |
| Parser.DriveStartLine | internal/request/request.go:178-192 | a request-line and its CRLF move the parser to the header stage with that line |
| Parser.DriveFieldLine | internal/request/request.go:194-204 | a field line in the header stage is stored with `Set`, and `parse` goes on after it |
| Parser.DriveFieldLines | internal/request/request.go:194-204 | field lines are stored one by one, in order |
| Parser.DriveEndOfHeaders | internal/request/request.go:200-210 | the empty line ends the headers and what follows is read as the body |
| Parser.RequestRoundTrip | internal/request/request.go:158-237 | a well-formed request in wire form is read in one call: every byte is consumed, with its line and its fields, and with its body when Content-Length frames it |
| Request.Request.constructor | internal/request/request.go:52-55 | a new request is at the request-line stage with an empty table |
| Request.Request.ParseSingle | internal/request/request.go:176-237 | bytes consumed, error and new request are exactly `Step` of the old request |
| Request.Request.Parse | internal/request/request.go:158-173 | bytes reported, error and new request are exactly `Drive` of the old request |
| Request.ChunkReader.Read | internal/request/request.go:67 | copies the next bytes of the stream to the space given, leaves the rest of the buffer alone, and reports EOF exactly when the stream is used up |
| Request.Grow | internal/request/request.go:60-64 | a buffer twice as large whose front holds the old buffer |
| Request.ShiftLeft | internal/request/request.go:89 | the bytes from np on move to the front |
| Request.ReadMore | internal/request/request.go:59-80 | a buffer that is not full is kept; a full one is replaced by one twice as large; the bytes held stay in front, followed by the bytes read |
| Request.ParseBuffered | internal/request/request.go:82-90 | `parse` on the buffer's bytes, then the unconsumed bytes shifted to the front |
| Request.DriveResume | internal/request/request.go:80-90 | parsing the leftover bytes plus a new read is parsing everything read so far |
| Request.TurnFails | internal/request/request.go:83-86 | a parse error in the loop is the error `parse` meets on everything read, and the stream cannot complete |
| Request.TurnMoves | internal/request/request.go:83-90 | after a successful parse the buffer holds the last unconsumed bytes read, and the request is where `parse` on everything read leaves it |
| Request.EndOfStream | internal/request/request.go:68-73 | EOF before done means the whole stream was read and does not complete a request |
| Request.EndOfRequest | internal/request/request.go:58-92 | at done the request is what `parse` makes of the bytes read, and of the whole stream when that completes |
| Request.Resume | internal/request/request.go:80-90 | one parse-and-shift, keeping the loop's hold on its state or failing as promised |
| Request.Turn | internal/request/request.go:59-90 | one read and parse: fails at EOF or on a parse error, or else reads at least one byte and keeps the loop's hold on its state |
| Request.RequestFromReader | internal/request/request.go:46-93 | a request is returned exactly when there is no error: done, and `Drive` of the bytes read. An error is the one `parse` meets, or incomplete at EOF. Any stream that completes a request is read back as that request, however it is cut into reads |
| Response.ItoaIsOneWord | internal/response/response.go:40 | `%d` writes no blank and no line break |
| Response.PhraseOK | internal/response/response.go:31-32 | 200's phrase is its numeral, a blank and `OK` |
| Response.PhraseBadRequest | internal/response/response.go:33-34 | 400's phrase is its numeral, a blank and `Bad Request` |
| Response.PhraseInternalServerError | internal/response/response.go:35-36 | 500's phrase is its numeral, a blank and `Internal Server Error` |
| Response.ReasonPhrase | internal/response/response.go:26-41 | the phrase has no line break |
| Response.StatusLine | internal/response/response.go:43 | starts with `HTTP/1.1 ` and its only CRLF ends it |
| Response.StatusLineRoundTrip | internal/response/response.go:25-45 | every status line written, whatever follows, reads back as its code |
| Response.PhraseWord | internal/response/response.go:30-41 | the first word of the phrase is the decimal code; a blank follows it exactly for the three named codes |
| Response.WriteStatusLine | internal/response/response.go:25-45 | appends the status line of the code to the writer |
| Response.DefaultFields | internal/response/headers.go:18-24 | exactly content-length (the decimal length), connection `close` and content-type `text/plain`, under lower-case keys |
| Response.GetDefaultHeaders | internal/response/response.go:57-63 | a fresh table holding the default fields |
| Response.DefaultContentLength | internal/response/response.go:59 | the default Content-Length reads back as the body length |
| Response.WriteHeaders | internal/response/response.go:70-83 | appends one `key: value` line per entry, in some ordering of all the keys, then an empty line |
| Response.FieldLinesSnoc | internal/response/response.go:72-79 | one more line after those of an ordering gives the lines of the longer ordering |
| Response.HeaderBlockReadBack | internal/response/response.go:70-83 | a block written by `WriteHeaders` is read by the header stage as exactly the written table, consuming the whole block and going on to the body |
| Writer.Next | internal/response/writer.go:40-154 | a call is accepted exactly in its one allowed state, and moves the state forward by at most one |
| Writer.PlayInOrder | internal/response/writer.go:40-154 | a new writer accepts every call of a sequence exactly when the calls come in response order, and then its state is the part reached |
| Writer.ChunkFrameAsWritten | internal/response/writer.go:126-137 | the frame is the hex size, the data and two CRLFs in length |
| Writer.ChunkFrame | internal/response/writer.go:120-138 | the evidently intended frame, empty exactly when the data is; the cited code writes `0\r\n\r\n` for no data instead (see `ChunkFrameAsWritten` and "## Findings") |
| Writer.DecodeChunk | internal/response/writer.go:126-137 | a frame with data p, then more, decodes as p followed by what more decodes as |
| Writer.DecodeLastChunk | internal/response/writer.go:152 | the last chunk ends the body at once, leaving what follows it |
| Writer.ChunkedRoundTrip | internal/response/writer.go:120-154 | the intended frames of any pieces, then the last chunk, decode as the pieces concatenated, leaving what follows |
| Writer.ChunkedRoundTripAsWritten | internal/response/writer.go:120-154 | the frames `WriteChunkedBody` writes for non-empty pieces, then the last chunk, decode as the pieces concatenated, leaving what follows |
| Writer.FramesAgree | internal/response/writer.go:126-137 | for non-empty pieces the written frames are the intended ones |
| Writer.EmptyChunkEndsBody | internal/response/writer.go:127-137 | the frame of no bytes, as written, decodes as the end of the body |
| Writer.EmptyChunkLosesData | internal/response/writer.go:120-138 | so an empty write before a chunk loses that chunk: the body reads back empty |
| Writer.FrameWrites | internal/response/writer.go:126-136 | the three writes of a chunk append exactly its written frame, for any data |
| Writer.Writer.constructor | internal/response/writer.go:25-30 | a new writer is at the status line and writes to the given writer |
| Writer.Writer.WriteStatusLine | internal/response/writer.go:40-48 | accepted exactly at the status line: appends the status line and moves to headers; a refused call writes nothing and keeps the state |
| Writer.Writer.WriteHeaders | internal/response/writer.go:60-76 | accepted exactly at the headers: appends the header block and moves to the body; a refused call writes nothing and keeps the state |
| Writer.Writer.WriteBody | internal/response/writer.go:82-91 | accepted exactly at the body: appends the body as is, reports its length and moves to trailers; a refused call reports 0, writes nothing and keeps the state |
| Writer.Writer.WriteTrailers | internal/response/writer.go:99-114 | accepted exactly at the trailers: appends the trailer block and stays; a refused call writes nothing |
| Writer.Writer.WriteChunkedBody | internal/response/writer.go:120-138 | accepted exactly at the body: appends the chunk's written frame (`0\r\n\r\n` for no bytes), reports the data length and stays; a refused call reports 0 and writes nothing |
| Writer.Writer.WriteChunkedBodyDone | internal/response/writer.go:144-154 | accepted exactly at the body: appends the 3-byte last chunk, reports 3 and moves to trailers; a refused call reports 0 and writes nothing |

## Left out

- The TCP server (`internal/server`) and the programs under `cmd/` and `main.go` are not part of this model: they are I/O around the core.
- Reader errors other than EOF are not modelled. Bytes returned together with EOF are not modelled either. The reader (`ChunkReader`) always returns at least one byte before EOF, because a read of 0 bytes without EOF would make the loop spin.
- Writes to the underlying `io.Writer` always succeed (`Sink`). Write errors are not modelled. So a `defer`red state change after a failed write is not modelled either.
- Go map iteration order is unspecified. `WriteHeaders` and `WriteTrailers` return the ordering taken as a ghost value, and the properties hold for every ordering.
- Headers.Headers.Parse: a non-empty line with no colon makes the source index out of range and panic (`internal/headers/headers.go:43`). The model returns the error `MissingColon` instead. The trailing-blank check before it keeps its place, so `Host \r\n` is still the invalid-name error.
- Text.Atoi models `strconv.Atoi` on a 64-bit platform. `Text.ToLower` and `Text.TrimSpace` handle ASCII only. One `char` stands for one byte, so multi-byte UTF-8 is not modelled.
- Writer.DecodeChunked is a reference reader for the chunked coding. It accepts only the lower-case hexadecimal that `%x` writes, and no chunk extensions.
- Request.RequestFromReader: chunking invariance is stated for streams that complete a request. When the stream holds more bytes than the Content-Length, reads cut at the end of the body finish without error, but one read past it fails. That behaviour is not an invariant.
- `getStatusLine`, called at `internal/response/writer.go:46`, is not part of this model. `Writer.Writer.WriteStatusLine` writes `Response.StatusLine` in its place.
- `GetDefaultHeaders` is declared twice with the same body (`internal/response/response.go:57-63` and `internal/response/headers.go:18-24`). It is modelled once.
- The `unknown state` branch of `parseSingle` (`internal/request/request.go:233-235`) cannot be reached with the four-value state datatype.
- The error texts are replaced by error datatypes carrying the values the messages name.
- Headers.Headers.Get has no contract of its own. Its properties are stated about `Headers.Lookup`, which it returns.

## Findings

| source | as written | input that shows it | evidently intended | confidence | as-written member | corrected member |
|---|---|---|---|---|---|---|
| internal/response/writer.go:120-138 | a chunk write with no bytes still writes the frame `0\r\n\r\n`: the last chunk and an empty trailer section, which ends the chunked body | `WriteChunkedBody` with an empty slice, which `cmd/httpserver/main.go:219` passes when a read returns 0 bytes without error; the chunks written after it are lost to the reader | a write of no bytes writes nothing and the body stays open | not executed | Writer.EmptyChunkEndsBody | Writer.ChunkedRoundTrip |

`Writer.Writer.WriteChunkedBody` models the code as written: it writes `ChunkFrameAsWritten`. The corrected frame `ChunkFrame` and its round trip `ChunkedRoundTrip` state the intended behaviour. `FramesAgree` shows the two coincide on non-empty chunks, which gives `ChunkedRoundTripAsWritten`.

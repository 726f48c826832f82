# CNXMD header codec

A Dafny model of the CNXMD ("connection metadata") header of platform9/cnxmd,
with proofs about it. A client proxy sends this header in front of the bytes
it relays. The header is:

- the head line `CONNECTION_METADATA/1.1` and a `\n`;
- one `key=value\n` line per pair of a string map;
- an empty line, that is, one more `\n`.

The model has two sides:

- **Decoder** (`Parse` in `pkg/cnxmd/cnxmd.go`). It reads the buffer line by
  line through a buffered reader. It checks the head line, then splits each
  entry line at its `=` characters. The first piece is the key. The other
  pieces, joined back with `=`, are the value. It stops at the empty line and
  returns the number of bytes it consumed and the map. It can fail in four
  ways: the head line has no `\n`, the head line is wrong, an entry line has
  no `\n`, or an entry line holds no `=`.
- **Encoder** (the header-building loop of `handleConnection` in
  `pkg/cnxmd/client_proxy.go`). It ranges over the map and writes the header
  to the outbound connection. It relays only if the write reports the whole
  header as written.

Modules:

- `Wrappers`: `Option` and `Result`.
- `Strings`: bytes, and Go's `strings.Split` and `strings.Join` on one
  separator byte.
- `Cnxmd`: the decoder. `ParseSpec` is a pure function. `LineReader` is a
  class standing for the `bufio.Reader`. `Parse` is the imperative loop,
  with the postcondition `r == ParseSpec(data)`.
- `ClientProxy`: the encoder. `Encode` is a pure function of a list of
  pairs. `BuildHeader` is the loop, where the next key is chosen
  arbitrarily, as Go's map iteration does. `SendHeader` adds the
  full-write check. This module also holds the round-trip and truncation
  theorems.
- `CnxmdVectors`: the table of `pkg/cnxmd/cnxmd_test.go`. Each row is a
  lemma, derived from the general theorems.

The code has two end-of-input errors: `failed to read head line`
(`pkg/cnxmd/cnxmd.go:29`) and `failed to read line` (`pkg/cnxmd/cnxmd.go:44`).
They are modelled as `HeadLineEOF` and `LineEOF`.

Go ranges over the map in an unspecified order (`pkg/cnxmd/client_proxy.go:62`).
The model lets the order be anything. `MapRoundTrip` and `LengthOrderFree`
prove that the decoded map and the header length do not depend on it.

The decoder cannot read back every map. Keys holding `=` or `\n`, and values
holding `\n`, are written unescaped, and the decoder then reads something
else. The round-trip theorems carry exactly this restriction (`ValidMap`).

## Model

| member | source | states |
|---|---|---|
| Strings.IndexFromFirst | pkg/cnxmd/cnxmd.go:42 | The delimiter search behind `ReadString` finds the first `\n` at or after the read position, or reports that there is none. |
| Strings.SplitPieces | pkg/cnxmd/cnxmd.go:53-54 | `strings.Split` on `=` gives at least one piece. No piece holds `=`. There are two or more pieces exactly when the line holds an `=`. |
| Strings.SplitJoin | pkg/cnxmd/cnxmd.go:53-58 | Joining the pieces of `strings.Split` with the separator gives the line back. |
| Cnxmd.SplitEntryCut | pkg/cnxmd/cnxmd.go:53-59 | An entry line has no key/value reading exactly when it holds no `=`. Otherwise it is `key` `=` `value`, with no `=` in the key. |
| Cnxmd.SplitEntryOf | pkg/cnxmd/cnxmd.go:53-59 | A key without `=`, then `=`, then any value, splits back into that key and that value. |
| Cnxmd.SplitJoinIsFirstCut | pkg/cnxmd/cnxmd.go:53-58 | Split-then-join cuts the line at its first `=`. There are fewer than two components exactly when there is no cut. Then `components[0]` is the text before the cut, and the joined rest is the text after it. |
| Cnxmd.ApplyAppend | pkg/cnxmd/cnxmd.go:59 | Storing one more pair updates the map at that key only. |
| Cnxmd.ApplyKeys | pkg/cnxmd/cnxmd.go:59 | The keys after storing the pairs are the keys before, plus the pairs' keys. |
| Cnxmd.LastWriteWins | pkg/cnxmd/cnxmd.go:59 | A pair whose key does not come back later in the header is in the result with its own value. A repeated key keeps its last value. |
| Cnxmd.EntriesSpecShape | pkg/cnxmd/cnxmd.go:40-60 | The entry loop succeeds only after consuming at least one byte, ending in `\n`, and (when more than one byte) in `\n\n`. Its only failures are a missing line and an invalid line. |
| Cnxmd.EntriesSpecLine | pkg/cnxmd/cnxmd.go:47-59 | One turn of the loop: an empty line finishes with the bytes consumed so far. A line with fewer than two components fails, reporting the line. Otherwise the loop stores `components[0]` with the joined rest and goes on after the line. |
| Cnxmd.ParseSpecConsumed | pkg/cnxmd/cnxmd.go:32-51 | A successful decode starts with the head line and `\n`. It consumes at least 25 bytes and no more than the buffer, and the consumed bytes end in `\n\n`. |
| Cnxmd.NoHeadLine | pkg/cnxmd/cnxmd.go:27-31 | Decoding fails for want of a head line exactly when the buffer holds no `\n`. |
| Cnxmd.BadHeadLine | pkg/cnxmd/cnxmd.go:32-37 | A first line other than the head line is rejected, reporting that line, whatever follows. |
| Cnxmd.EntriesSpecReadsConsumed | pkg/cnxmd/cnxmd.go:40-52 | A successful entry loop depends only on the bytes it consumed: any buffer agreeing on them decodes the same. |
| Cnxmd.PayloadIgnored | pkg/cnxmd/cnxmd.go:20-61 | The consumed bytes followed by any payload decode exactly as the whole buffer did. |
| Cnxmd.LineReader.constructor | pkg/cnxmd/cnxmd.go:25-26 | A fresh reader is at the start of the buffer. |
| Cnxmd.LineReader.ReadString | pkg/cnxmd/cnxmd.go:42 | `ReadString('\n')` returns the bytes up to and including the next `\n` and moves past them. When there is no `\n`, it returns the rest of the buffer with end-of-input. |
| Cnxmd.Parse | pkg/cnxmd/cnxmd.go:20-61 | The imperative decoder returns exactly `ParseSpec(data)`: the same success, consumed count and map, or the same error. |
| ClientProxy.EncodeEntriesConcat | pkg/cnxmd/client_proxy.go:62-64 | The entry lines of two runs of pairs are the two encodings back to back. |
| ClientProxy.EncodeLength | pkg/cnxmd/client_proxy.go:61-65 | The header length is the head line, plus one, plus `len(key) + len(value) + 2` per pair, plus one. |
| ClientProxy.EntryLineShape | pkg/cnxmd/client_proxy.go:63 | A valid pair's line ends in its only `\n`, and what comes before it is `key=value`. |
| ClientProxy.ReadEntries | pkg/cnxmd/cnxmd.go:40-59 | The decoder reads the entry lines of valid pairs back as those pairs, stored in order, and ends up right after them. |
| ClientProxy.EntriesReadEncoded | pkg/cnxmd/cnxmd.go:40-59 | When the entry loop succeeds, the bytes it consumed are the entry lines of the valid pairs it read, then the terminator, and its map is those pairs stored in order. |
| ClientProxy.ParsedIsEncoded | pkg/cnxmd/cnxmd.go:20-61 | The converse of the round trip: whatever decodes, its consumed bytes are the header `Encode(es)` of valid pairs `es`, and its map is the one those pairs leave. |
| ClientProxy.RoundTrip | pkg/cnxmd/client_proxy.go:61-65 | The header of any valid pairs, followed by any payload, decodes to the header's length and to the map the pairs leave. |
| ClientProxy.ListedEntries | pkg/cnxmd/client_proxy.go:62 | When no key repeats, every pair is in the map with its own value. |
| ClientProxy.MapRoundTrip | pkg/cnxmd/client_proxy.go:61-65 | The header written for a valid map, in any iteration order, followed by any payload, decodes to the header's length and to that map. |
| ClientProxy.InvalidEntryLine | pkg/cnxmd/cnxmd.go:53-56 | A non-empty line without `=` after valid entry lines makes decoding fail, reporting that line, whatever follows. |
| ClientProxy.ReadTruncatedEntries | pkg/cnxmd/cnxmd.go:40-46 | Valid entry lines and the terminator, cut before the final `\n`, end in the missing-line error. |
| ClientProxy.TruncatedHeader | pkg/cnxmd/cnxmd.go:27-46 | Every strict prefix of a header fails. It fails for want of a head line while the head line is incomplete, and for want of a line afterwards. |
| ClientProxy.SizeWithout | pkg/cnxmd/client_proxy.go:62-64 | Taking one pair out of a list takes its share out of the header size. |
| ClientProxy.MapWithout | pkg/cnxmd/client_proxy.go:62-64 | Taking one pair out of a list without repeated keys takes its key out of the map, and no key repeats in the rest. |
| ClientProxy.NothingStored | pkg/cnxmd/client_proxy.go:62-64 | Only the empty list of pairs leaves an empty map. |
| ClientProxy.SizeOrderFree | pkg/cnxmd/client_proxy.go:62-64 | Two lists of the same map, in any orders, have the same size. |
| ClientProxy.LengthOrderFree | pkg/cnxmd/client_proxy.go:61-65 | The header's length does not depend on the order in which the map was ranged over. |
| ClientProxy.BuildHeader | pkg/cnxmd/client_proxy.go:61-65 | The loop writes `Encode(order)` for an order that lists each key of the map once. Its length is the sum above. For a valid map, it decodes to its own length and to the map. |
| ClientProxy.SendHeader | pkg/cnxmd/client_proxy.go:66-75 | A write error ends the connection. A count other than the header length is a short write, reporting both numbers. Only a full write goes on to relay. Then, for a valid map, the receiver decodes the header to the map. |
| CnxmdVectors.NoLineAtAll | pkg/cnxmd/cnxmd_test.go:16-21 | `fdljkafjda` fails for want of a head line. |
| CnxmdVectors.ForeignHeadLine | pkg/cnxmd/cnxmd_test.go:22-28 | `fdljkafjda\n` fails with that line as the unexpected head line. |
| CnxmdVectors.HeadLineOnly | pkg/cnxmd/cnxmd_test.go:29-35 | The head line alone fails for want of a line. |
| CnxmdVectors.EmptyHeader | pkg/cnxmd/cnxmd_test.go:36-43 | The head line and the empty line decode to 25 bytes and the empty map. |
| CnxmdVectors.LineWithoutSeparator | pkg/cnxmd/cnxmd_test.go:44-53 | A line `invalid-kv-line` after a valid entry fails, reporting that line. |
| CnxmdVectors.ValueWithSeparators | pkg/cnxmd/cnxmd_test.go:54-63 | `foo=bar` and `joe=jane=jack` decode to 47 bytes, with `jane=jack` as the value of `joe`. |
| CnxmdVectors.LongValue | pkg/cnxmd/cnxmd_test.go:64-70 | The test's 278-byte header, `x=` and 250 `y` bytes, decodes to 278 bytes and its 250-byte value. |
| CnxmdVectors.UnprintableBytes | pkg/cnxmd/cnxmd_test.go:71-77 | Bytes 1 to 4 pass through into the key and the value, and the header spans 31 bytes. |

## Left out

- `ServeClientProxy` (`pkg/cnxmd/client_proxy.go:19-40`): the listener, its accept loop and one goroutine per connection. This is network I/O and concurrency.
- In `handleConnection`: the connection id from `proxylib.RandomString`, logging, dialling the destination, the deferred closes and the `proxylib.FerryBytes` relay (`pkg/cnxmd/client_proxy.go:50-60`, `76`). These are I/O and code outside these files. The write is a function parameter (`write`). The model keeps only which outcome the write leads to.
- The second deferred close (`pkg/cnxmd/client_proxy.go:59`) closes the inbound connection again, under the label "outbound". The remote connection is never closed there. Closing is I/O, so this is not modelled.
- `DefaultBufferLength` (`pkg/cnxmd/cnxmd.go:10`, `26`): the reader's buffer size only changes how the input is fetched. `ReadString` gathers buffer-sized fragments into whole lines of any length, so the model reads from the input directly and has no buffer refill.
- Error messages: `ParseError` keeps the kind of failure and the offending line. The `fmt.Errorf` text and the wrapped `io.EOF` text are not modelled.
- Cnxmd.Parse: on failure it returns only the error. Go also returns the partial `bytesConsumed` and `kv`, which its doc comment calls undefined (`pkg/cnxmd/cnxmd.go:18-19`).
- Go strings are byte strings here: a byte is a character below 256. Splitting and comparison are bytewise, so UTF-8 plays no part.
- Go's randomised map iteration is modelled as an arbitrary choice of the next key. The randomness itself is not modelled.
- `Write` returning both a count and an error: the code looks at the error first. `WriteResult` therefore holds either an error or a count.
- Integer width: `bytesConsumed` and lengths are `nat`. A Go `int` cannot overflow on any buffer Go can hold.

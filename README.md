# net2axis packet encoder in Dafny

A Dafny model of the encoder in `tool/net2axis.py`. The tool reads captured
network packets and writes an AXI-Stream-style text trace. For each packet it
writes one header line, `M: pkt=N, delay=D`. After the header it writes one
`data,keep,last` record per bus word:

- `data` is the word's hex digits, with the bytes reversed on a little-endian bus.
- `keep` is `2^c - 1` in unpadded lowercase hex, where `c` is the number of bytes in the word.
- `last` is `1` on the packet's final word and `0` on every other word.

Files and modules:

- `wrappers.dfy` (`Wrappers`): `Option` and `Result`.
- `hex.dfy` (`Hex`): the byte type; `binascii.hexlify` and a reference inverse; Python's unpadded rendering of an integer in hex (`hex(n)` without `0x`) and in decimal; the keep mask `MaskHex`.
- `words.dfy` (`Words`): slicing a sequence into `n`-element words, `"".join`, `reversed`, and the two-digit group reversal used for little-endian words.
- `encoder.dfy` (`Encoder`): `_check_endianness`, the output file name, `_switch_endianness` (written as a loop method), and `_parsepkt` split into its `_tdata`, `_tkeep` and `_tlast` parts, with the encoder's properties. These include a byte-level statement, `EncodeBytes`, of what one packet becomes on a bus of `8m` bits.
- `tool.dfy` (`Tool`): the trace layout produced by `output`, and the `Net2Axis` class with its fields. Its methods are `New` (construction), `LoadPcapFile`, `Parse`, `Output` and `Run`.
- `findings.dfy` (`AsWritten`): two source expressions modelled exactly as written, next to the input that shows where they go wrong (see Findings).

The model follows the code, which is Python 2:

- `datawidth / 4` and `len(w) / 2` are floor divisions.
- Words are cut from the hex string, `datawidth / 4` digits at a time.
- The byte-level lemmas cover the usual case, where `datawidth` is a positive multiple of 8.

Behaviour the model states explicitly:

- **Little endian.** The little-endian transform reverses the two-digit groups of each word. Each group is one byte, so this fully reverses the bytes in the word: `11 22 33 44` becomes `44332211` (`Encoder.LittleEndianExample`). It is not a swap of 2-byte groups, which would give `33441122`.
- **Empty packet.** An empty packet produces no records at all. Its header line is still written.
- **Small or negative `datawidth`.** A `datawidth` from 0 to 3 gives a step of 0, and `range` raises an error (`ZeroRangeStep`). A negative `datawidth` gives an empty range, so every packet produces no records.
- **Endianness names.** Only `big` and `little` are accepted.
- **No decoder.** The code has no trace-to-capture decoder, so none is modelled. The round-trip facts here are about slicing, joining, group reversal and hexlify.

## Model

| member | source | states |
|---|---|---|
| `Hex.Hexlify` | tool/net2axis.py:59 | the hex text of a packet has exactly two characters per byte |
| `Hex.HexlifyAt` | tool/net2axis.py:59 | byte `i` of the packet becomes characters `2i` and `2i+1`, high nibble first |
| `Hex.HexlifyRoundTrip` | tool/net2axis.py:59 | the hex text has only lowercase hex digits, and reading it back gives the original bytes (nothing is lost) |
| `Hex.DigitsDenote` | tool/net2axis.py:64 | the rendering used for the keep field (and for the packet number of line 78) has only digits of the base, denotes the number, and starts with `0` only for the number 0 (no padding) |
| `Hex.MaskShape` | tool/net2axis.py:64 | the keep field for `c >= 1` bytes is one `f` per four bytes, preceded by `1`, `3` or `7` for the one, two or three bytes left over |
| `Hex.MaskExamples` | tool/net2axis.py:64 | on a 32-bit bus a full word has keep `f`, a 1-, 2- or 3-byte word `1`, `3` or `7`; 8 bytes give `ff` |
| `Words.Chunks` | tool/net2axis.py:61 | there are no slices exactly when the input is empty |
| `Words.ChunksShape` | tool/net2axis.py:61 | the slices join back to the input; each has 1 to `n` elements, all but the last exactly `n` |
| `Words.ChunkCount` | tool/net2axis.py:61 | there is one slice per start index `0, n, 2n, ...` below the length: `(c-1)*n < len <= c*n` |
| `Words.ChunkAt` | tool/net2axis.py:61 | slice `k` is the comprehension's `s[k*n : k*n+n]`, clipped to the end of `s` |
| `Words.Reverse` | tool/net2axis.py:55 | `reversed` keeps the length and puts element `i` at position `len-1-i` |
| `Words.ReverseGroupsLength` | tool/net2axis.py:55 | reversing the two-digit groups of a word keeps its length |
| `Words.ReverseGroupsInvolutive` | tool/net2axis.py:55 | on an even-length word, reversing the groups twice gives the word back |
| `Words.ReverseGroupsOddWord` | tool/net2axis.py:55 | on an odd-length word it does not: `abc` becomes `cab`, which then becomes `bca` |
| `Encoder.CheckEndianness` | tool/net2axis.py:47-50 | `big` gives 0 and `little` gives 1; any other name gives `InvalidEndianness` with that name |
| `Encoder.Stem` | tool/net2axis.py:36 | the intended stem is a prefix of the path that keeps every `/`; it is shorter than the path exactly when the last component has an extension (a `.` preceded in that component by a character other than `.`), and then it stops at the last `.` |
| `Encoder.OutputFileName` | tool/net2axis.py:36 | the output name is the stem, `.` and the extension: a path with an extension keeps everything up to and including its last `.` and has that extension replaced; a path without one gets `.` and the extension appended |
| `Encoder.NibbleOffset` | tool/net2axis.py:60 | the digits per word are `datawidth / 4` rounded down: `4r <= datawidth < 4r + 4` |
| `Encoder.SwitchEndianness` | tool/net2axis.py:52-56 | the loop returns each word with its two-digit groups reversed, in order; it keeps the number of words and each word's length |
| `Encoder.SwitchedShape` | tool/net2axis.py:52-56 | the switch keeps the number of words and each word's length |
| `Encoder.SwitchedInvolutive` | tool/net2axis.py:52-56 | switching twice restores a list of even-length words |
| `Encoder.TKeep` | tool/net2axis.py:64 | there is one keep field per word |
| `Encoder.TLast` | tool/net2axis.py:65-66 | the flag list is `0` for every word but the last, then one `1`; for no words it is the single `1` |
| `Encoder.ParsePkt` | tool/net2axis.py:58-67 | a packet fails to encode exactly when `0 <= datawidth < 4`, with `ZeroRangeStep` |
| `Encoder.UnswitchedWords` | tool/net2axis.py:59-61 | before the switch, the words join back to the packet's hex; on a whole-byte bus all but the last have `datawidth/4` digits and the last has an even count from 2 to `datawidth/4` |
| `Encoder.KeepIgnoresSwitch` | tool/net2axis.py:62-64 | the keep fields are the same whether computed before or after the switch |
| `Encoder.RecordsCount` | tool/net2axis.py:61 | one record per word; no records exactly for an empty packet or a negative width; `(c-1)*n < 2*len(pkt) <= c*n` |
| `Encoder.RecordsFields` | tool/net2axis.py:61-67 | record `i` is word `i`, its keep mask and the flag `1` only on the final word, in word order |
| `Encoder.LastFlagOnce` | tool/net2axis.py:65-67 | only the final record ends in `,1`; every other record ends in `,0` |
| `Encoder.ReverseGroupsOfHexlify` | tool/net2axis.py:55 | on a hexlified word the group reversal is the hex of the word's bytes fully reversed |
| `Encoder.ChunksOfHexlify` | tool/net2axis.py:59-61 | slicing the hex `2m` digits at a time gives the hex of the bytes sliced `m` at a time |
| `Encoder.TDataBytes` | tool/net2axis.py:59-63 | on an `8m`-bit bus, word `i` is the hex of byte slice `i`, reversed on a little-endian bus |
| `Encoder.EncodeBytes` | tool/net2axis.py:58-67 | on an `8m`-bit bus, record `i` is the hex of the `i`-th `m`-byte slice (bytes reversed if little-endian), the mask `2^c-1` of its `c` bytes, and `1` exactly on the last |
| `Encoder.TwoWords` | tool/net2axis.py:58-67 | a packet of more than one and at most two `m`-byte words gives exactly two records: the first full word with flag `0`, then the rest with its own mask and flag `1` |
| `Encoder.LittleEndianExample` | tool/net2axis.py:58-67 | bytes `11 22 33 44 55 66` on a 32-bit little-endian bus give `44332211,f,0` and `6655,3,1` |
| `Tool.TraceLinesPrefix` | tool/net2axis.py:74-80 | the lines of the first `k` packets are a prefix of the trace |
| `Tool.TraceLinesLength` | tool/net2axis.py:74-80 | the trace has one header per packet plus one line per record |
| `Tool.TraceLinesBlock` | tool/net2axis.py:74-80 | after the lines of packets `0..i-1` come the header `M: pkt={i+1}, delay=D` and then packet `i`'s records; `D` is the initial delay for `i = 0` and the inter-packet delay otherwise |
| `Tool.OneHeaderPerPacket` | tool/net2axis.py:78-80 | when no record starts with `M`, the trace has exactly one line starting with `M` per packet |
| `Tool.RecordsAreNotHeaders` | tool/net2axis.py:67 | on a whole-byte bus every record starts with a hex digit, so no record looks like a header |
| `Tool.AllRecords` | tool/net2axis.py:69-72 | there is one record list per packet |
| `Tool.AllRecordsAt` | tool/net2axis.py:69-72 | entry `i` of the parsed list is the record list of packet `i` |
| `Tool.ParseStep` | tool/net2axis.py:71-72 | encoding packet `k` successfully appends exactly its records after those of packets `0..k-1` |
| `Tool.Net2Axis.constructor` | tool/net2axis.py:25-36 | defaults: width 32, extension `dat`, `little`, delays `0` and `10`; no packets loaded; nothing parsed; output name from the input path |
| `Tool.Net2Axis.New` | tool/net2axis.py:25-36 | construction fails with `InvalidEndianness` exactly for a byte-order name other than `big` and `little`; otherwise it gives a fresh, valid converter whose path, width, extension, byte-order code, delays and output name are the arguments or their defaults, with no packets loaded and nothing parsed |
| `Tool.Net2Axis.LoadPcapFile` | tool/net2axis.py:44-45 | the loaded packets are the given frames |
| `Tool.Net2Axis.Parse` | tool/net2axis.py:69-72 | appends exactly one record list per packet, in capture order; fails, leaving `parsed` unchanged, exactly when `0 <= datawidth < 4` and there is a packet; the converter stays valid |
| `Tool.Net2Axis.Output` | tool/net2axis.py:74-80 | the lines written are the trace of `parsed`: each packet's header, then its records |
| `Tool.Net2Axis.Run` | tool/net2axis.py:82-85 | load, parse and output: the trace of the old `parsed` plus every frame's records, or the zero-step error `ZeroRangeStep` with `parsed` unchanged; the converter stays valid |
| `AsWritten.KeepAsWritten` | tool/net2axis.py:64 | Python 2's keep text is the mask, followed by one more character, `L`, exactly when `2^c` exceeds `sys.maxint` |
| `AsWritten.KeepAsWrittenMatches` | tool/net2axis.py:64 | on 64-bit CPython 2 the keep text as written equals the mask exactly for words of at most 62 bytes |
| `AsWritten.KeepOn512BitBus` | tool/net2axis.py:64 | a full 64-byte word gives `ffffffffffffffffL` instead of sixteen `f` |
| `AsWritten.BeforeFirstDot` | tool/net2axis.py:36 | `split(".")[0]` is the longest prefix without a `.` |
| `AsWritten.OutputFileNameAsWritten` | tool/net2axis.py:36 | the output name as written is the path up to its first `.`, then `.` and the extension |
| `AsWritten.DotDirectoryLost` | tool/net2axis.py:36 | `./cap.pcap` gives `.dat` as written; the intended name is `./cap.dat` |
| `AsWritten.InnerDotLost` | tool/net2axis.py:36 | `a.b.pcap` gives `a.dat` as written; the intended name is `a.b.dat` |

## Left out

- Reading the capture (`rdpcap`, the scapy import, lines 13-18, 44-45): `LoadPcapFile` is given the packets' bytes.
- Opening and writing the output file (lines 37-41, 78, 80): `Output` returns the lines, without their newline characters. Failure to open the file (`sys.exit`) and the stderr messages are I/O.
- The check for unknown keyword arguments (line 42): `Options` has a field for each known argument, so an unknown one cannot be passed.
- `int(...)` of a command-line width (line 27): `datawidth` is taken as an integer. A non-numeric string, which raises in `int`, is not modelled.
- `pcapfile=None` (line 25): the path is always a string. The `None` default would raise when the output name is built.
- The delays (lines 34-35, 78) are kept as the text they print as. The defaults `0` and `10` print as `"0"` and `"10"`. Values from the command line are strings and are printed as given.
- `keepwidth` (line 28) and `_num_pkts` (line 70): both are computed and never used.
- The scapy logging level (line 14), `parse_args` and the `__main__` block (lines 88-107): these are global library state and command-line plumbing.
- Trace-to-capture decoding: the code has no decoder.
- `parse` before `loadpcapfile` (lines 32, 71): iterating over `None` raises a `TypeError`. `Parse` requires loaded packets; `run` always loads first (line 83).
- `Encoder.OutputFileName`: models the intended name, not line 36 as written. The as-written name is `AsWritten.OutputFileNameAsWritten` (see Findings).
- `Encoder.Records`: uses the intended keep mask, without Python 2's `L` suffix for words of 63 or more bytes. The as-written text is `AsWritten.KeepAsWritten` (see Findings).

## Findings

| source | as written | input that shows it | evidently intended | confidence | as-written member | corrected member |
|---|---|---|---|---|---|---|
| tool/net2axis.py:64 | `str(hex(2**n-1)).split("x",1)[1]` keeps Python 2's `L` suffix once `2**n` is a long | a full word of a 512-bit bus (64 bytes) on 64-bit CPython 2: keep `ffffffffffffffffL` | `ffffffffffffffff` | medium; not executed; assumes CPython 2 with a 64-bit `sys.maxint` | `AsWritten.KeepAsWrittenMatches` | `Hex.MaskShape` |
| tool/net2axis.py:36 | `pcapfile.split(".")[0]` cuts at the first `.` anywhere in the path, directories included | `./cap.pcap` gives the output file `.dat`; `a.b.pcap` gives `a.dat` | `./cap.dat` and `a.b.dat` (only the extension of the file name replaced) | high; not executed | `AsWritten.DotDirectoryLost` | `Encoder.OutputFileName` |

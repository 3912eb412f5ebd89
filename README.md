# rom-diff in Dafny

`rom-diff.py` compares a base Nintendo 64 ROM image with a hacked one and writes the bytes
that differ as patch lines. There are two dialects. GameShark writes codes of one or two bytes.
STROOP's `.hck` format writes runs of any length, and a run may bridge up to 16 unchanged bytes.
Before comparing, an image stored in byte-swapped order (first byte 0x37) is read through a
`ByteSwapper`, which serves its 16-bit pairs in swapped order. A native image (first byte 0x80)
is read as it is. The scan skips the 0x40-byte header. The address on each line is the file
offset plus the RAM offset 0x245000.

This project models that core and proves what it writes.

- `wrappers.dfy` (`Wrappers`): `Option` and `Result`.
- `text.dfy` (`Text`): bytes, then the text forms the renderers use. These are
  `str.format`'s `{:0NX}` and `{}` for integers (`Format`, `Decimal`),
  `binascii.hexlify` (`Hexlify`) and `int.from_bytes(..., "big")` (`BigEndian`). Each has an
  inverse that reads it back: `Value`, `SignedValue`, `Unhexlify` and `ToBytes`.
- `accumulator.dfy` (`Accumulator`): `DiffFormatter`'s run accumulation as pure transitions on a
  value. `Feed` folds those transitions over a sequence of calls. The lemmas cover the cap, the
  gap tolerance and the invariant.
- `formatter.dfy` (`Formatter`): the class `DiffFormatter`. Its methods update its fields in
  place, and each is proved to perform the matching `Accumulator` transition. The output holds
  the renderer applied to every record written, in order. Also `gameshark_format` and
  `stroop_format`.
- `dialects.dfy` (`Dialects`): the two thresholds and the two line renderers, with a parser for
  each line form. The round-trip lemmas prove what a line carries.
- `streams.dfy` (`Streams`): a raw file (content and position), the class `ByteSwapper`, and
  `ordered_file`.
- `patch.dfy` (`Patch`): what a scan writes, for any thresholds. Each record is a stretch of the
  hack image that starts and ends at a differing byte. The records are in address order and do
  not overlap. Every differing byte lies in a record. Writing the records over the base image
  therefore gives the hack image, over the length both images share after the header.
- `scan.dfy` (`Scan`): `compute_diff` as a method over the two files and a formatter.

The model follows the code in three places where a reader might expect otherwise:

- A one-byte GameShark record renders its byte as `00XX`. It is the low byte of the 16-bit field,
  because `int.from_bytes` of one byte is that byte (`Dialects.GameSharkOneByte`).
- A first byte other than 0x37 or 0x80 is not rejected by `ordered_file`. It returns `None`, and
  `compute_diff` then fails at the `seek` of that stream. `Scan.DiffError.UnknownByteOrder` models
  that failure, with the side (base first) on which it happens.
- A STROOP run has no length cap (`math.inf`). A run grows as long as the differing bytes are
  separated by at most 16 unchanged bytes.

## Model

| member | source | states |
|---|---|---|
| `Text.DigitChar` | rom-diff.py:54 | a digit below 16 renders as a decimal digit or a hex letter in the requested case, whose digit value is that digit; so 0 renders as `'0'` |
| `Text.Format` | rom-diff.py:54 | every character of the rendering is a digit below the base, with hex letters in the requested case (upper for `{:06X}`, lower for `hexlify`) |
| `Text.FormatValue` | rom-diff.py:54 | a number rendered in a base with a minimum width reads back as that number |
| `Text.FormatLength` | rom-diff.py:54 | the rendering is at least `width` characters long, and exactly `width` when the number fits in that many digits (no truncation) |
| `Text.FormatPads` | rom-diff.py:54 | the padded rendering is the unpadded digits with `'0'` characters in front, as many as make up `width` |
| `Text.NoLeadingZero` | rom-diff.py:54 | the unpadded rendering of a positive number does not start with `'0'` |
| `Text.Decimal` | rom-diff.py:54 | `str(i)` of any integer reads back as `i`, with a minus sign for a negative one |
| `Text.HexByte` | rom-diff.py:66 | one byte in hexadecimal is two characters whose value is the byte |
| `Text.Hexlify` | rom-diff.py:66 | `hexlify` writes two characters per byte, each a decimal digit or a lower-case hex letter |
| `Text.HexlifyAt` | rom-diff.py:66 | characters `2i` and `2i+1` of the hex form are byte `i` in lower-case hexadecimal |
| `Text.UnhexlifyHexlify` | rom-diff.py:66 | decoding the hex form gives the bytes back |
| `Text.BigEndian` | rom-diff.py:55 | the big-endian value of `n` bytes is below `256^n` |
| `Text.BigEndianToBytes` | rom-diff.py:55 | any value below `256^n`, written as `n` big-endian bytes, reads back as that value |
| `Text.ToBytesBigEndian` | rom-diff.py:55 | the bytes come back from their big-endian value |
| `Accumulator.Flush` | rom-diff.py:43-47 | afterwards no run is open and `start` is kept; at most one record is added, exactly when a run was open, and it is the run's start and committed bytes |
| `Accumulator.AddDiff` | rom-diff.py:23-34 | adds at most one record; if none, a run is open with the byte last and nothing pending; if one, it holds the old run, its pending bytes and the byte, its length is the cap, and the run is closed |
| `Accumulator.AddSame` | rom-diff.py:36-41 | adds at most one record; if none, the committed bytes and `start` are kept; if one, it is the committed bytes without the pending ones, written only once `max_gap` bytes were pending, and the run is closed |
| `Accumulator.Feed` | rom-diff.py:117-127 | a sequence of calls only appends to what was written |
| `Accumulator.FeedValid` | rom-diff.py:13-47 | any sequence of `add_diff`/`add_same`/`flush` calls keeps the invariant (no pending matches without a run, at most `max_gap` of them), only appends to what was written, and writes no empty record |
| `Accumulator.FeedAppend` | rom-diff.py:117-127 | feeding two sequences of calls one after the other is feeding their concatenation |
| `Accumulator.FlushIdempotent` | rom-diff.py:43-47 | `flush` writes the open run once, clears it, and a second `flush` writes nothing |
| `Accumulator.UnboundedNeverCaps` | rom-diff.py:33-34 | with `max_run = math.inf`, `add_diff` never writes: it opens a run or appends the pending bytes and the new byte |
| `Accumulator.RecordsWithinCap` | rom-diff.py:33-34 | with no gap tolerance and a cap `n >= 2`, no record holds more than `n` bytes |
| `Accumulator.CapSkippedPastCap` | rom-diff.py:29-34 | because the cap is an equality test, once a run holds at least `n` bytes `add_diff` under a cap of `n` behaves as with no cap |
| `Accumulator.GapCarriesRunPastCap` | rom-diff.py:29-34 | committing pending bytes can carry a run past the cap: under cap 2 and gap 1, a differing, a matching and two differing bytes leave one open run of four bytes |
| `Accumulator.CapOfOneNeverFires` | rom-diff.py:24-34 | the first byte of a run is not compared with the cap, so for every sequence of calls a cap of one behaves as no cap |
| `Accumulator.ConsecutiveDiffsPaired` | rom-diff.py:52-53 | under GameShark's thresholds, `n` consecutive differing bytes give `ceil(n/2)` records: pairs at every second address, the last a single byte when `n` is odd |
| `Accumulator.GapHeld` | rom-diff.py:36-39 | within the gap budget matching bytes are held as pending and nothing is written |
| `Accumulator.GapExhausted` | rom-diff.py:36-41 | one matching byte past the budget writes the run without its pending bytes and closes it |
| `Accumulator.IdleIgnoresSames` | rom-diff.py:36-37 | matching bytes outside a run change nothing |
| `Accumulator.GapRedeemed` | rom-diff.py:29-31 | a differing byte, at most `max_gap` matching bytes and a differing byte give one record holding all of them, whatever the cap |
| `Accumulator.GapSplits` | rom-diff.py:38-41 | more than `max_gap` matching bytes between two differing bytes give two one-byte records |
| `Formatter.DiffFormatter.constructor` | rom-diff.py:14-21 | the new formatter keeps the thresholds and renderer, has no run open and has written nothing |
| `Formatter.DiffFormatter.AddDiff` | rom-diff.py:23-34 | opens a run at the address, or commits the pending bytes and the byte and writes the run when its length equals the cap; the new state is `Accumulator.AddDiff` of the old |
| `Formatter.DiffFormatter.AddSame` | rom-diff.py:36-41 | outside a run nothing changes; inside, the byte is held as pending while fewer than `max_gap` are, else the run is written and closed |
| `Formatter.DiffFormatter.Flush` | rom-diff.py:43-47 | an open run is written as one line of the renderer and cleared; otherwise nothing changes |
| `Formatter.GameSharkFormat` | rom-diff.py:50-58 | a new formatter with cap 2, no gap tolerance and the GameShark renderer |
| `Formatter.StroopFormat` | rom-diff.py:61-69 | a new formatter with no cap, gap tolerance 16 and the STROOP renderer |
| `Dialects.GameShark` | rom-diff.py:54-56 | a line starts with `A` and ends with a newline; for one or two bytes at a six-digit address it has 14 characters, the length digit `0` or `1` second and the space at position 8 |
| `Dialects.Stroop` | rom-diff.py:65-67 | a line starts with `80` and ends with a newline; at a six-digit address it has 11 characters plus two per byte, with `: ` at positions 8-9 |
| `Dialects.GameSharkOneByte` | rom-diff.py:54-56 | a one-byte record renders as `A0`, six hex digits of address, a space, `00` and the byte in two hex digits |
| `Dialects.GameSharkTwoBytes` | rom-diff.py:54-56 | a two-byte record renders as `A1`, the address, a space and the two bytes in order, two hex digits each |
| `Dialects.GameSharkRoundTrip` | rom-diff.py:54-56 | every one- or two-byte record at an address below `0x1000000` reads back from its GameShark line |
| `Dialects.StroopRoundTrip` | rom-diff.py:65-67 | every record at an address below `0x1000000` reads back from its STROOP line |
| `Streams.SwapPairs` | rom-diff.py:77-87 | the logical content of a swapped file is as long as the file without a lone last byte |
| `Streams.SwapPairsAt` | rom-diff.py:83-87 | logical bytes `2k` and `2k+1` of a swapped file are raw bytes `2k+1` and `2k` |
| `Streams.SwapPairsInvolution` | rom-diff.py:83-87 | swapping pairs twice gives the file back, without a lone last byte (the swapper never serves it) |
| `Streams.RawFile.Read` | rom-diff.py:83 | `read(n)` gives the up to `n` bytes from the position, clipped at the end, and advances past them |
| `Streams.RawFile.Seek` | rom-diff.py:94 | `seek(d, 0)` moves to `d`, `seek(d, 1)` moves by `d` |
| `Streams.ByteSwapper.constructor` | rom-diff.py:73-75 | the swapper wraps the file with nothing buffered |
| `Streams.ByteSwapper.Read` | rom-diff.py:77-87 | serves the buffered byte, or reads a pair, buffers its first byte and serves its second, or serves nothing when fewer than two bytes remain; from a reachable state it serves the next logical byte of the swapped file and stays reachable |
| `Streams.ByteSwapper.Seek` | rom-diff.py:89-95 | seeks the raw file; at an even position drops the buffer; at an odd one steps back and reads once, which lands on the target unless a byte was still buffered, in which case the stream is one position early |
| `Streams.ByteSwapper.SeekRealigned` | rom-diff.py:89-95 | the corrected seek: the next byte served is logical byte `t` in every state, or the stream is at its end |
| `Streams.SeekAfterReadMisaligns` | rom-diff.py:89-95 | on swapped `[1, 2, 3, 4]`, a read, a seek to 3 and another read give `4`, where logical byte 3 is `3` |
| `Streams.SeekRealignedAfterRead` | rom-diff.py:89-95 | the same calls with the corrected seek give logical byte 3 |
| `Streams.Classify` | rom-diff.py:99-106 | a failure exactly when fewer than four bytes remain; otherwise the layout whose magic byte (0x80 or 0x37) comes first, or nothing when the first byte is neither |
| `Streams.OrderedFile` | rom-diff.py:98-106 | reads four bytes and seeks back to 0; fails when fewer than four remain; returns the file for 0x80, a new swapper over it for 0x37, nothing otherwise |
| `Patch.Events` | rom-diff.py:117-127 | one call per position of the shorter image: `add_diff` with the hack byte at address `a + k` exactly where the images differ, `add_same` with the hack byte elsewhere |
| `Patch.Records` | rom-diff.py:117-128 | the records written into a new formatter by the scan and the final flush are all non-empty |
| `Patch.StepInv` | rom-diff.py:117-127 | each round of the scan keeps the invariant: the records are faithful and ordered, and every differing byte so far is held by a record or by the open run |
| `Patch.FlushInv` | rom-diff.py:128 | the final `flush` keeps that invariant |
| `Patch.FeedInv` | rom-diff.py:117-127 | the invariant holds after every prefix of the scan |
| `Patch.PatchCorrect` | rom-diff.py:109-128 | for any thresholds, every record is a non-empty stretch of the hack image within the compared length that starts and ends at a differing byte; the records are in address order without overlap; every differing byte is held by a record |
| `Patch.PatchApplies` | rom-diff.py:109-128 | writing the records over the base image gives the hack image, over the compared length |
| `Patch.NoDifferenceNoRecords` | rom-diff.py:123-126 | identical images give no records |
| `Patch.SingleDifference` | rom-diff.py:117-128 | images that differ at one position give exactly one record, the hack byte at that address |
| `Scan.LogicalImage` | rom-diff.py:103-106 | a native image is served as it is; a swapped one drops a lone last byte, and swapping it again gives the file back |
| `Scan.Layouts` | rom-diff.py:110-113 | both files must classify; the base's failure is reported first, then the hack's, then an unknown byte order of the base, then of the hack |
| `Scan.ReadByte` | rom-diff.py:118 | `read(1)` on either stream serves the next logical byte, or nothing at the end |
| `Scan.ReadAt` | rom-diff.py:118 | read at position `from + i`: byte `i` of the image after `from`, or nothing past it |
| `Scan.ReadPair` | rom-diff.py:118 | one byte from each stream at the same logical position |
| `Scan.SeekTo` | rom-diff.py:112-113 | `seek(t, 0)` on a stream with nothing buffered, using the swapper's `seek` as written, leaves it at logical position `t`, or at its end |
| `Scan.OpenBoth` | rom-diff.py:110-111 | `ordered_file` on both files; the streams returned serve the logical images of the layouts and share no object |
| `Scan.Dispatch` | rom-diff.py:123-126 | a differing pair calls `add_diff` with the hack byte, a matching one `add_same` |
| `Scan.Advance` | rom-diff.py:118-127 | one round of the loop: stop at the end of either stream, reporting whether only one ended, or feed the pair |
| `Scan.Compare` | rom-diff.py:117-127 | the loop feeds one call per byte pair of the two images, at consecutive addresses, and reports whether their lengths differ |
| `Scan.SeekBoth` | rom-diff.py:112-113 | seeks the base, then the hack, to `t`; neither may have a byte buffered; afterwards both are at logical position `t`, or at their end |
| `Scan.Walk` | rom-diff.py:112-128 | seeks past the header, runs the loop and flushes |
| `Scan.ComputeDiff` | rom-diff.py:109-128 | on an error the formatter is untouched; otherwise it has taken one call per byte pair of the logical images after the header, at addresses from header plus RAM offset, then a flush, and the flag is set exactly when the image lengths differ |
| `Scan.ComputeDiffNew` | rom-diff.py:109-128 | with a new formatter, the lines written are the renderer applied to the records of which `PatchCorrect` speaks |
| `Scan.RomDiff` | rom-diff.py:152 | a new GameShark (or, for `--stroop`, STROOP) formatter and `mario_config`: the lines are the dialect's renderer applied to the records of the images after the 0x40-byte header, from address 0x245040 |
| `Scan.GameSharkLinesReadBack` | rom-diff.py:50-58 | a GameShark scan writes records of one or two bytes, and below address `0x1000000` every line reads back as its record |
| `Scan.StroopLinesReadBack` | rom-diff.py:61-69 | below address `0x1000000` every line of a STROOP scan reads back as its record |

## Left out

- The command line (rom-diff.py:131-152): argument parsing and opening the two files are not
  modelled. The `--header` option is parsed but never used. The call on line 152 is
  `Scan.RomDiff`, with `mario_config` as `Scan.MarioConfig` and `--stroop` as a flag.
- Writing to standard output is modelled as appending each line to the formatter's `out`
  sequence. The "File length mismatch" message on standard error is modelled as the flag that
  `Scan.ComputeDiff` returns.
- Exceptions are modelled as values. The `ValueError` of `ordered_file` and the failed `seek` on
  `None` become `Failure` values of `Scan.ComputeDiff`. The `assert n == 1` of `ByteSwapper.read`
  becomes a `requires`.
- Files are byte sequences with a position. Only `read(n)`, `seek(d, 0)`, `seek(d, 1)` and `tell`
  are modelled. A seek to a negative position, which Python refuses, is excluded by the
  `requires`.
- `Scan.ComputeDiff`: requires the base and the hack to be different file objects. Passing the
  same object twice is not modelled; the command always opens two. The contract does not say
  where the two file positions are left on the error paths.
- `Scan.SeekTo`: requires that nothing is buffered. `compute_diff` seeks each stream once,
  straight after `ordered_file`, so this always holds there. `ByteSwapper.Seek` models the seek
  in every state.
- `Dialects.GameSharkRoundTrip`, `Dialects.StroopRoundTrip`, `Scan.GameSharkLinesReadBack`,
  `Scan.StroopLinesReadBack`: stated only for addresses below `0x1000000`. Past that, `{:06X}`
  writes more than six digits (which `Text.FormatLength` allows) and the fixed-width line forms no
  longer apply.
- `math.inf` is modelled as `Unbounded`. Python integers are unbounded, so there is no wrap-around
  to model.

## Findings

| source | as written | input that shows it | evidently intended | confidence | as-written member | corrected member |
|---|---|---|---|---|---|---|
| rom-diff.py:89-95 | `seek` to an odd position steps back one raw byte and calls `read(1)` without first dropping the buffer; a byte still buffered from an earlier read is what that read returns, the next pair is never loaded and the stream is one logical position early | a swapped file `[1, 2, 3, 4]`: `read(1)`, `seek(3, 0)`, `read(1)` gives `4` (logical byte 2) | discard the buffer before realigning, so that the next read gives logical byte 3, `3` | not executed | `Streams.SeekAfterReadMisaligns` | `Streams.ByteSwapper.SeekRealigned` |

`compute_diff` seeks each stream only before its first read, when nothing is buffered. There
`ByteSwapper.Seek` and `ByteSwapper.SeekRealigned` promise the same position, so the scan is
unaffected. `Scan.SeekTo` uses the seek as written.

# SBIG_340 camera daemon — a Dafny model of its core

This project models three C files of the SBIG All-Sky 340C camera software:

- `term.c`: the checksummed serial link to the camera. It frames commands and data with the 7-bit complement checksum. It waits for the camera's echo of that checksum and for the answer bytes. It probes the baud-rate ladder in `try_connect`.
- `socket.c`: the network side of the daemon.
  - `findpar`/`getintpar` parse `key=value` text.
  - `stringscan` finds the request word.
  - `send_ima` serialises the last frame into an image message, and `get_imstorage` is the client that parses it back.
  - `handle_socket` serves one client: it streams each new frame and executes `heater=` commands.
  - `daemon_` is the exposure loop. It schedules dark frames, counts consecutive failures and publishes frames to the clients.
- `imfunctions.c`:
  - output file names (`make_filename`);
  - option checking (`chk_storeimg`);
  - the 256-bin histogram and the recommended exposure (`save_histo`, `set_max_exptime`);
  - the row flip of the FITS writer, the `IMAGETYP` keyword and the status word of `store_image`.

Modules:

| file | module | contents |
|---|---|---|
| `CStrings.dfy` | `CStrings` | What the code relies on from libc, over Dafny strings. A C string is the prefix of a buffer before its first NUL. Also covers `strstr`, `strchr`, `strrchr`, case-insensitive comparison, `strtol` with base 0, decimal printing, and `int`/`size_t` wrap-around. |
| `Term.dfy` | `Term` | The checksums as `bv8` functions and the class `SerialLink`. The class holds `last_chksum`, `curspd` and the bytes written to the tty. |
| `ImFunctions.dfy` | `ImFunctions` | The `imstorage` record, file naming and option checking, the histogram methods over arrays, and the class `AutoExposure`. That class holds `max_exptime` and `exp_calculated`. |
| `Socket.dfy` | `Socket` | Key/value parsing, `stringscan` in place on an `array<char>`, the image message, `get_imstorage` and the heater reply. |
| `WireRoundTrip.dfy` | `WireRoundTrip` | What a client recovers from a message of `send_ima`, both for the corrected message and for the message as written. |
| `Daemon.dfy` | `Daemon` | The class `ImagingDaemon` for `daemon_`'s state and one client's side of `handle_socket`. |

Inputs the code takes from the outside world become parameters of the model:

- Outcomes of `write_tty` become `writeOk` functions.
- What arrives within the 0.1 s windows becomes a `Window` value plus the reply bytes.
- `stat` becomes a `StatResult` function.
- The camera's `start_exposition`/`get_imdata` results become a `CycleInput`.
- `dtime()` becomes one `now` per cycle.
- The `%g` text of `exptime` and the value `getdpar` reads back become `gtext`/`exptimeRead`.
- The multiplier `save_histo` derives from the three percentiles becomes a function parameter.

Two properties of the serial checksum (`~b & 0x7f` per byte, XOR-ed) are easy to get wrong:

- **Framed-payload checksum.** Checksumming a payload followed by its own checksum yields `0x7f`, not zero (`Term.ChecksumOfFramedPayload`).
- **Bit 7 corruption.** A flip of bit 7 of any byte leaves the checksum unchanged (`Term.ChecksumIgnoresBit7`). Only corruptions in the low seven bits are detected (`Term.ChecksumDetectsLowBits`).

## Model

| member | source | states |
|---|---|---|
| `CStrings.CStr` | socket.c:269 | The C string in a buffer is the longest NUL-free prefix; the byte after it is the NUL |
| `CStrings.CStrAppend` | socket.c:184-194 | A C string read across a NUL-free head is that head followed by the C string of the rest |
| `CStrings.Find` | socket.c:78 | `strstr` returns an occurrence with no earlier one, or reports that none exists |
| `CStrings.FindFirst` | socket.c:78 | Any occurrence with no earlier one is the occurrence `strstr` returns |
| `CStrings.NoEarlierOccurrence` | socket.c:78 | A needle character absent from the text before k rules out every match before k |
| `CStrings.LastIndexOf` | imfunctions.c:141 | `strrchr` finds the last occurrence of the character, or reports that there is none |
| `CStrings.IndexOf` | socket.c:228 | `strchr` finds the first occurrence of the character, or reports that there is none |
| `CStrings.EqualsIgnoreCase` | imfunctions.c:148-151 | `strcasecmp(a, b) == 0` holds exactly when both strings are equal once lowered |
| `CStrings.PrefixIgnoreCase` | imfunctions.c:133-134 | `strncasecmp(a, b, strlen(a)) == 0` holds exactly when `a` lowered is a prefix of `b` lowered |
| `CStrings.IntToDec` | socket.c:170 | The `%i` text is non-empty and holds only digits and a minus sign |
| `CStrings.Pad4` | imfunctions.c:103 | The `%04d` text has at least four digits, exactly four below 10000 |
| `CStrings.Int32` | socket.c:170 | The `(int)` cast: the result is in the 32-bit range, agrees with the value modulo 2^32 and keeps values already in range |
| `CStrings.SizeT` | socket.c:417 | The `size_t` product: in range, congruent modulo 2^64, unchanged when in range |
| `CStrings.NatToDecLength` | imfunctions.c:103 | Decimal text has one digit exactly below 10 and at most four digits below 10000 |
| `CStrings.Pad4Value` | imfunctions.c:103 | The `%04d` text of a number below 10000 reads back as that number |
| `CStrings.NatToDecLeadingDigit` | socket.c:92 | Decimal text of a positive number has no leading zero, so base-0 `strtol` does not read it as octal |
| `CStrings.NatToDecValue` | socket.c:170 | The digits `%i` prints for n have the value n |
| `CStrings.ReadUnsignedDec` | socket.c:92 | `strtol`'s digit reader consumes exactly the printed digits of m before a newline and returns m |
| `CStrings.LongClamp` | socket.c:92 | `strtol` saturates: values above LONG_MAX give LONG_MAX, values below LONG_MIN give LONG_MIN, values in range are kept |
| `CStrings.StrToL` | socket.c:92 | `strtol(…, 0)` consumes at most the text, gives 0 when it consumes nothing, and always returns a value in the range of a `long` |
| `CStrings.StrToLDec` | socket.c:92 | `strtol(…, 0)` on the `%i` text of any integer followed by a newline consumes all of its characters and returns that integer, saturated to the `long` range |
| `CStrings.StrToLNonNegative` | socket.c:92 | The non-negative case of the previous row |
| `CStrings.StrToLNegative` | socket.c:92 | The negative case: the sign is consumed and the value negated before saturation |
| `CStrings.DigitRunOver` | socket.c:92 | The digit run stops exactly at the newline after the printed digits |
| `Term.CmdChecksum` | term.c:84-91 | The command checksum has bit 7 clear and is the 7-bit complement of the command (XOR with its low bits gives 0x7f) |
| `Term.Payload` | term.c:73-77 | The data sent is the buffer up to its first NUL |
| `Term.Checksum` | term.c:76-77 | The running data checksum has bit 7 clear and equals the low seven bits of the XOR of the bytes, complemented when their number is odd |
| `Term.ChecksumOfOneByte` | term.c:76-87 | The data checksum of one byte is the command checksum of that byte |
| `Term.ChecksumConcat` | term.c:76-77 | The checksum of a concatenation is the XOR of the parts' checksums |
| `Term.ChecksumOfFramedPayload` | term.c:76-81 | Checksumming a payload followed by its checksum yields 0x7f |
| `Term.ChecksumAround` | term.c:76-77 | Replacing byte i changes the checksum only through that byte's term |
| `Term.ChecksumDetectsLowBits` | term.c:76-77 | Changing a byte in any of its low seven bits changes the checksum |
| `Term.ChecksumIgnoresBit7` | term.c:76-77 | Flipping bit 7 of any byte leaves the checksum unchanged |
| `Term.PayloadIsPrefix` | term.c:76 | A NUL-free prefix that ends at a NUL or at the buffer's end is the payload |
| `Term.PayloadChecksum` | term.c:74-77 | The loop counts the payload's length and accumulates its checksum |
| `Term.SerialLink.constructor` | term.c:49-71 | Not connected (`curspd` = -1), last checksum 0, nothing written |
| `Term.SerialLink.CurSpeed` | term.c:63-66 | -1 exactly when not connected, else the rate of the current ladder step; as written it may not be used with `curspd` past the ladder |
| `Term.SerialLink.CurSpeedChecked` | term.c:63-66 | Corrected `get_curspeed`: -1 exactly when `curspd` is not a ladder index, else the ladder rate |
| `Term.SerialLink.SendCmd` | term.c:84-91 | On a good write: the command and its checksum are written and the checksum is recorded; on failure: 1 and nothing recorded |
| `Term.SerialLink.SendData` | term.c:72-83 | An empty payload writes nothing and returns 1. Otherwise the payload goes out, then its checksum. The checksum is recorded only when both writes succeed. |
| `Term.SerialLink.WaitChecksum` | term.c:96-105 | Timeout when nothing arrives in the window, success exactly when the byte equals the recorded checksum, bad checksum otherwise |
| `Term.SerialLink.Wait4Answer` | term.c:114-128 | The checksum's verdict is passed on. After a good echo it returns the 1..128 answer bytes that arrived, or a timeout when none did. |
| `Term.SerialLink.SendTest` | term.c:141-145 | Ten attempts to send the communication test: success exactly when one write goes through, and then the frame is logged once |
| `Term.SerialLink.TryConnect` | term.c:134-156 | No device: 0 and no change. Otherwise the ladder is probed in order and every rate below the result got no `O` answer. The returned rate is the first that answered. On failure `curspd` ends one past the ladder. The bytes written are the probes' frames. |
| `Term.UnansweredConnectOverrunsLadder` | term.c:137-156 | A camera that never answers leaves `curspd` = 7, an index outside `speeds[]` |
| `ImFunctions.OutFile` | imfunctions.c:71-79 | The output stem starts with the image name and is the name itself without a timestamp |
| `ImFunctions.NumberedNamesDistinct` | imfunctions.c:103 | Different numbers below 10000 give different `_%04d` file names |
| `ImFunctions.FirstFree` | imfunctions.c:102-108 | The first number from 1 whose file does not exist, below 10000; none when all are taken |
| `ImFunctions.NumberedFile` | imfunctions.c:100-109 | The enumerate loop returns the name with the first free number, or fails when none is free |
| `ImFunctions.MakeFilename` | imfunctions.c:66-110 | A name is returned exactly when the store type allows one. Normal gives `stem.suff` only when it is absent. Rewrite gives it unless `stat` fails with an error other than ENOENT, with `!` for an existing FITS file. Enumerate gives the first free number. |
| `ImFunctions.StoreTypeOf` | imfunctions.c:132-140 | No option means normal. Rewrite exactly when the option is a case-insensitive prefix of overwrite or rewrite, the empty string included. Enumerate needs a prefix of (e)numerate. Refusal exactly when no keyword has it as prefix. |
| `ImFunctions.NumberingAbbreviations` | imfunctions.c:135 | Every non-empty prefix of "enumerate" or "numerate", in any case, selects numbering |
| `ImFunctions.NormalIsRefused` | imfunctions.c:115-139 | The word "normal" is rejected, although the option's documentation lists it |
| `ImFunctions.SuffixFormat` | imfunctions.c:148-151 | In any case: TIFF exactly for tiff/tif, FITS exactly for fits/fit, raw exactly for raw/bin/dump, and none otherwise |
| `ImFunctions.SplitSuffix` | imfunctions.c:141-153 | The name is cut at its last dot only when the text after it names a format |
| `ImFunctions.SplitSuffixOfJoined` | imfunctions.c:141-153 | A stem joined to a format suffix by a dot splits back into that stem and format |
| `ImFunctions.FormatLetters` | imfunctions.c:155-159 | Each format bit is set exactly when one of its letters occurs in the option |
| `ImFunctions.ChosenFormat` | imfunctions.c:154-168 | The option's letters decide. Without the option: the suffix's format when it names one, else FITS. |
| `ImFunctions.CutSuffix` | imfunctions.c:141-153 | The renamed image and the format its suffix named |
| `ImFunctions.ChkStoreImg` | imfunctions.c:118-192 | No name or a bad store option: refused unchanged. A bad format string: refused after the cut. Otherwise the store type and format are set. Acceptance holds exactly when every chosen format's file name is available. |
| `ImFunctions.CheckNames` | imfunctions.c:176-190 | The loop accepts exactly when a name can be made for every selected format |
| `ImFunctions.BinOf` | imfunctions.c:420 | A pixel falls into the bin of its high byte: b*256 <= v < (b+1)*256 |
| `ImFunctions.TotalBump` | imfunctions.c:420 | Incrementing one bin increments the histogram's total by one |
| `ImFunctions.HistogramTotal` | imfunctions.c:415-421 | The bins count every pixel exactly once: their total is the number of pixels |
| `ImFunctions.Histogram` | imfunctions.c:415-421 | The counting loop produces the histogram of the pixels |
| `ImFunctions.AccMonotone` | imfunctions.c:432-433 | The accumulated count never decreases from bin to bin |
| `ImFunctions.ReachBelow` | imfunctions.c:432-436 | The first bin whose accumulated count reaches the threshold, or -1 when none does |
| `ImFunctions.FirstReachOrdered` | imfunctions.c:430-436 | For thresholds up to the total, a larger threshold is reached no earlier, and within the 256 bins |
| `ImFunctions.Percentiles` | imfunctions.c:430-437 | The one-pass loop finds the first bins reaching 5 %, 50 % and 95 % of the pixels |
| `ImFunctions.HistogramStats` | imfunctions.c:414-437 | Histogram plus percentile bins, with 0 <= low <= median <= top < 256 |
| `ImFunctions.RecommendedExposure` | imfunctions.c:453-455 | The exposure is clamped to [5e-5, max_exptime] and kept when already inside |
| `ImFunctions.RecommendedExposureIdempotent` | imfunctions.c:453-455 | Clamping a clamped exposure changes nothing |
| `ImFunctions.Pixels` | imfunctions.c:416-419 | The pixels of an image are its first W*H samples |
| `ImFunctions.HistogramExposure` | imfunctions.c:430-455 | The exposure recommended from the three percentile bins lies within [5e-5, max_exptime] and is the raw product when that is already inside |
| `ImFunctions.Recommend` | imfunctions.c:430-457 | The recommended exposure is the clamped product of the exposure and the percentile multiplier, inside the bounds |
| `ImFunctions.AutoExposure.constructor` | imfunctions.c:404 | `max_exptime` starts at 180 s and `exp_calculated` at -1 |
| `ImFunctions.AutoExposure.SetMaxExptime` | imfunctions.c:405-407 | The maximum changes only to values strictly between 30 and 300 |
| `ImFunctions.AutoExposure.SaveHisto` | imfunctions.c:413-460 | No data: 1000 and nothing changes. A failed histogram print: negative and nothing changes. Otherwise 0, and `exp_calculated` becomes the recommended exposure, which always lies within bounds. |
| `ImFunctions.RowStartIsProduct` | imfunctions.c:371-373 | Row y starts at y*W |
| `ImFunctions.RowBefore` | imfunctions.c:373 | An earlier row ends before a later one starts |
| `ImFunctions.FlipIsSymmetric` | imfunctions.c:371-374 | Flipping around OX is its own inverse |
| `ImFunctions.FlipPrefixExtend` | imfunctions.c:373-374 | Copying source row H-1-n after n flipped rows gives n+1 flipped rows |
| `ImFunctions.FlipRows` | imfunctions.c:371-374 | The output is the image upside down: row y is source row H-1-y, W*H samples |
| `ImFunctions.ImageTypeName` | imfunctions.c:320-330 | "obj.-dark" exactly for autodark, "dark" exactly for dark, "object" for everything else |
| `ImFunctions.StoreStatus` | imfunctions.c:503-533 | 1 when there is no data or size. Otherwise bit 1 means TIFF failed, bit 2 raw, bit 4 FITS, and bit 8 debayer (for non-darks only). Nothing higher is set. |
| `ImFunctions.StatusOneIsAmbiguous` | imfunctions.c:509-513 | A failed TIFF write of a dark frame returns the same 1 as an image without data |
| `Socket.FindPar` | socket.c:76-83 | The value starts right after the first occurrence of the key when `=` follows it; nothing when the first occurrence lacks `=` |
| `Socket.FindParAt` | socket.c:76-83 | A first occurrence followed by `=` gives the position after it |
| `Socket.GetIntPar` | socket.c:88-98 | A value exactly when the key is found and `strtol` consumes at least one character, and then it is the number read |
| `Socket.GetIntParAt` | socket.c:88-98 | The `%i` text of v after `key=` and before a newline reads back as v |
| `Socket.GetIntParReads` | socket.c:88-98 | The same, starting from the first occurrence of the key |
| `Socket.Int32Of` | socket.c:400 | A `long` stored in an `int` field: present exactly when read, and then in 32-bit range |
| `Socket.SizeTOf` | socket.c:411-412 | A `long` stored in a `size_t` field: present exactly when read, below 2^64 |
| `Socket.SkipFrom` | socket.c:226 | Skips spaces, tabs and CRs, stopping at the first other character or the end |
| `Socket.ScanStart` | socket.c:222-227 | The word starts at the first non-blank after the needle's first occurrence; nothing when the needle is missing or only blanks follow |
| `Socket.WordAt` | socket.c:228-229 | The word runs to the first space or the end |
| `Socket.Scan` | socket.c:220-231 | `stringscan` keeps the buffer length and finds the word inside the C string |
| `Socket.StringScan` | socket.c:220-231 | The in-place scan of the array returns the word start and writes the buffer `Scan` describes |
| `Socket.WordStart` | socket.c:222-227 | The pointer walk finds the start `ScanStart` specifies |
| `Socket.ScanWrites` | socket.c:228-229 | When a space follows the word, exactly that space becomes NUL |
| `Socket.ScanKeeps` | socket.c:228-229 | When no space follows, the buffer is untouched |
| `Socket.ScannedWordIsCString` | socket.c:228-230 | After the scan, the C string at the returned start is exactly the word |
| `Socket.PixelBytes` | socket.c:190 | Two octets per pixel |
| `Socket.PixelBytesAt` | socket.c:190 | Pixel i is sent low byte first, then high byte |
| `Socket.DecodePixelBytes` | socket.c:414-416 | Reading the sent octets back as 16-bit pixels restores the pixels |
| `Socket.MetaAsWritten` | socket.c:169-183 | The metadata as written equals the intended one whenever the X and Y starts agree and the exposure start fits an `int` |
| `Socket.ImageMessageAsWritten` | socket.c:167-194 | The message as written is its metadata, `imdata=` and 2*W*H pixel octets |
| `Socket.ImageMessage` | socket.c:167-194 | The intended message is the metadata lines, `imdata=` and 2*W*H pixel octets |
| `Socket.WebHeader` | socket.c:158-165 | The HTTP header ends with the content length in decimal and a blank line |
| `Socket.PutMeta` | socket.c:169-185 | The metadata text as the code writes it (`subY` carrying the X start, the exposure start cast to `int`) is built, and `rest` is what remains of the 1 MiB buffer |
| `Socket.SendIma` | socket.c:167-217 | 1 exactly when the message as written fits, the web header (for web queries) and the data were written; the bytes written are header and that message, and on failure only what got out |
| `Socket.Uint16` | socket.c:403-404 | A `long` stored in a `uint16_t` wraps into range and keeps in-range values |
| `Socket.Uint8` | socket.c:405 | Likewise for the `uint8_t` subframe size |
| `Socket.ReadSubframe` | socket.c:402-407 | Each subframe field is read when present and keeps its stale value otherwise |
| `Socket.ReadMeta` | socket.c:395-413 | Each field is set from its key when present and kept otherwise. A subframe is present exactly when `binning` = 255. Name, store type and format are untouched. |
| `Socket.GetImStorage` | socket.c:395-422 | Fails without `imdata`. Succeeds exactly when the buffer holds W*H pixels after the key, and then carries them. Even on failure every metadata field is the one read, and without `imdata` the pixels are untouched. |
| `Socket.HeaterAction` | socket.c:285-286 | Off exactly for `heater=0`, on for any other number |
| `Socket.HeaterBodyMatchesLength` | socket.c:287-289 | The reply body is 12 characters, as the Content-Length promises, saying ON or OFF as the command did |
| `WireRoundTrip.MetaShape` | socket.c:172-183 | The metadata lines in order, with the subframe lines for binning 255 |
| `WireRoundTrip.MetaAsWrittenShape` | socket.c:172-183 | The same as written, with `subY` carrying the X start and `exposetime` cast to `int` |
| `WireRoundTrip.KeyRead` | socket.c:76-98 | A key with a character absent from everything before its line is read back with that line's value |
| `WireRoundTrip.MessageCString` | socket.c:184 | The C string of a message is the metadata, `imdata=` and the pixels up to their first NUL |
| `WireRoundTrip.MessageShape` | socket.c:167-194 | The intended message has the common shape with the Y start under `subY` and the whole exposure start |
| `WireRoundTrip.MessageAsWrittenShape` | socket.c:167-194 | The message as written has that shape with the X start under `subY` and the exposure start cast to `int` |
| `WireRoundTrip.MetaAvoids` | socket.c:170-183 | A character outside every key, digit and `%g` output never occurs in the metadata |
| `WireRoundTrip.MetaNulFree` | socket.c:170-183 | The metadata has no NUL |
| `WireRoundTrip.ReadsBinning` | socket.c:399-400 | `binning` reads back as the sent value |
| `WireRoundTrip.SubframeLayout` | socket.c:173-177 | The subframe lines sit between `binning` and `exptime` |
| `WireRoundTrip.ReadsSubX` | socket.c:403 | `subX` reads back as the X start |
| `WireRoundTrip.ReadsSubY` | socket.c:404 | `subY` reads back as whatever was sent under it |
| `WireRoundTrip.ReadsSubS` | socket.c:405 | `subS` reads back as the size |
| `WireRoundTrip.ReadsImtype` | socket.c:410 | `imtype` reads back as the sent value |
| `WireRoundTrip.ReadsImW` | socket.c:411 | `imW` reads back as the width |
| `WireRoundTrip.ReadsImH` | socket.c:412 | `imH` reads back as the height |
| `WireRoundTrip.ReadsExposetime` | socket.c:413 | `exposetime` reads back as the value sent |
| `WireRoundTrip.FindsPixels` | socket.c:414 | `imdata` is found right before the pixels when the metadata has no `d` |
| `WireRoundTrip.HeadReadBack` | socket.c:399-407 | Binning and, for binning 255, the X start, the value under `subY` and the size read back as sent |
| `WireRoundTrip.TailReadBack` | socket.c:410-413 | Image type, width, height and the exposure start sent read back unchanged |
| `WireRoundTrip.MetaClean` | socket.c:170-183 | The metadata holds neither NUL nor `d`, whatever is sent under `subY` and `exposetime` |
| `WireRoundTrip.MetaReadBack` | socket.c:395-413 | Every metadata field the client reads equals what was sent |
| `WireRoundTrip.ReadBack` | socket.c:395-422 | A client accepts a message of the common shape and recovers every field and the pixels it carries |
| `WireRoundTrip.AcceptsPixels` | socket.c:414-421 | When the pixel octets follow `imdata=` in the right number, the client accepts them |
| `WireRoundTrip.RoundTrip` | socket.c:395-422 | Parsing a message of the corrected `send_ima` returns the sent binning, subframe, type, size, exposure start and pixels; only what the message does not carry is kept from the client |
| `WireRoundTrip.RoundTripAsWritten` | socket.c:167-194 | Parsing the message `send_ima` sends as written returns every field and the pixels, except that the Y start arrives as the X start and the exposure start wrapped to 32 bits |
| `WireRoundTrip.AsWrittenSubYIsX` | socket.c:175 | As written, the client reads the X start as the Y start |
| `WireRoundTrip.AsWrittenExposetimeWraps` | socket.c:183 | As written, an exposure start of 2^31 s arrives as -2^31 |
| `Daemon.NextFrame` | socket.c:350-364 | Autodark frames stay autodark. A dark is followed by a light frame. Any other frame becomes dark exactly when its exposure exceeds the minimum and the dark interval has passed, and then the time is recorded. |
| `Daemon.Schedule` | socket.c:342-364 | One frame type per cycle |
| `Daemon.AutoDarkStays` | socket.c:351 | An autodark daemon never changes the frame type |
| `Daemon.NoTwoDarksInARow` | socket.c:352-355 | A scheduled dark is never followed by another dark |
| `Daemon.FirstDarkWaits` | socket.c:356-362 | The first dark comes more than the dark interval after the last recorded one |
| `Daemon.DarksAreSpaced` | socket.c:356-362 | Consecutive darks are more than the dark interval apart |
| `Daemon.FailureRunMeaning` | socket.c:365-376 | The error counter reaches k exactly when the last k cycles failed to start or transfer |
| `Daemon.LogStep` | socket.c:365-382 | A failure increments the error counter, any transferred frame resets it; a published frame increments the image counter |
| `Daemon.Snapshot` | socket.c:131-156 | The copy holds exactly the image's W*H pixels and otherwise equals the image |
| `Daemon.OutcomesOf` | socket.c:342-390 | One outcome per cycle |
| `Daemon.ImagingDaemon.constructor` | socket.c:338-341 | No dark taken yet, no errors, no frame published or stored |
| `Daemon.ImagingDaemon.SetDarks` | socket.c:120-123 | Sets the two dark parameters and nothing else |
| `Daemon.ImagingDaemon.CopyIma` | socket.c:131-156 | The stored frame is a copy of the image exactly when it has data and allocation succeeds; otherwise it is cleared |
| `Daemon.ImagingDaemon.PlanFrame` | socket.c:350-364 | Takes the recommended exposure when one exists, then the frame type and dark time of `NextFrame` |
| `Daemon.ImagingDaemon.Expose` | socket.c:365-389 | Counter, stored frame and log follow the outcome; non-dark published frames update the recommended exposure; fatal exactly at 33 errors |
| `Daemon.ImagingDaemon.Publish` | socket.c:377-382 | A stored copy bumps the image counter and, for non-darks, recomputes the exposure |
| `Daemon.ImagingDaemon.Cycle` | socket.c:342-390 | One pass of the loop: planning, then exposure and publication, keeping the invariants |
| `Daemon.ImagingDaemon.Run` | socket.c:342-390 | The loop runs until the inputs end or 33 consecutive failures; it stops exactly then: no earlier cycle left 33 failures in a row, and the last 33 logged cycles all failed |
| `Daemon.NeverStoppedStep` | socket.c:384-387 | A cycle that leaves fewer than 33 failures in a row extends the run of cycles that did not stop the loop |
| `Daemon.Idle` | socket.c:246-259 | A due frame is sent only when a frame is stored; a sent frame updates the client's counter, and a web client is closed after it |
| `Daemon.IdleAsWritten` | socket.c:246-252 | As written, a due frame with nothing stored makes `send_ima` dereference NULL; otherwise the step is `Idle` |
| `Daemon.NullFrameAfterFailedCopy` | socket.c:131-156 | A published frame followed by a failed copy leaves a fresh client due with nothing stored |
| `Daemon.DeliveredAreNew` | socket.c:248-251 | A client is only sent frames newer than the last it received |
| `Daemon.DeliveredInOrder` | socket.c:248-251 | The frames a client receives are strictly increasing in counter |
| `Daemon.WebClientGetsOneFrame` | socket.c:250-255 | A web client receives at most one frame |
| `Daemon.Request` | socket.c:261-269 | The read bytes followed by a NUL inside the buffer |
| `Daemon.ReadAsWritten` | socket.c:261-269 | As written, the terminator has a cell in the buffer exactly when the read delivers fewer than BUFLEN bytes, and then the buffer is the request |
| `Daemon.ScanRequest` | socket.c:272 | The GET, then POST, scan keeps the buffer size and finds a word inside it |
| `Daemon.ParamsAt` | socket.c:271-277 | The parameters start after the first `/` of the word, else at the start of the buffer |
| `Daemon.HandleData` | socket.c:261-293 | An empty read closes the client. A web request marks the client as web. A `heater=` value switches the heater, replies and closes. Anything else changes nothing. |
| `Daemon.RequestCString` | socket.c:269 | The terminated buffer holds exactly the read bytes as a C string |
| `Daemon.PlainRequest` | socket.c:271-277 | A request with neither GET nor POST is not a web query and is parsed whole |
| `Daemon.HeaterLineReads` | socket.c:283 | `heater=<v>` followed by a newline yields v |
| `Daemon.PlainHeaterCommand` | socket.c:271-286 | A plain `heater=<v>` line is no web query and commands v |
| `Daemon.WebScan` | socket.c:272 | On `GET /q rest` the scan cuts the word after q |
| `Daemon.WebParams` | socket.c:274-275 | The parameters of `GET /q rest` are exactly q |
| `Daemon.WebRequest` | socket.c:272-277 | `GET /q rest` is a web query whose parameters are q |

## Left out

- Threads, `select`, sockets and the mutex of `socket.c`. The model takes one client's view in step functions and one acquisition loop. The handler thread restart in `daemon_` is left out.
- `run_terminal`, `tty_init`, `read_tty`/`write_tty`. Their outcomes are parameters (`writeOk`, `Window`, reply bytes). The 0.1 s timing of `wait_checksum`/`wait4answer` is folded into `Window`.
- `dtime()`: one `now` per cycle. The code reads the clock twice (socket.c:358 and 360), and the model uses one value for both.
- Floating point:
  - `save_histo`'s multiplier rules (imfunctions.c:441-452) are the `multiplier` parameter;
  - `%g` and `getdpar` (socket.c:178, 409) are `gtext` and `exptimeRead`;
  - exposures are `real`.
- `start_exposition` and `get_imdata` (camera I/O) are the `CycleInput` of a cycle. `get_imdata`'s effect on W and H is not modelled.
- `client_`, `server`, `waittoread`, `print_stat`, `putlog`, `debayer` and the FITS, TIFF and raw writers are not part of this model. Only their pass/fail results enter `StoreStatus`.
- The histogram file print is abstracted to `printed: Option<bool>`.
- `localtime` text is the `stamp` parameter.
- `strdup`/`malloc`/`memcpy` failures in `copyima` are one `allocOk` flag.
- The compile-time choices are fixed: cfitsio, libtiff and libraw are taken to be present, so FITS is the default format and no `ERRX` for a missing library is modelled.
- `daemon_`'s endless loop is a finite `Run` over a sequence of cycle inputs. `ERRX` at 33 errors is the `stopped` result.
- Daemon.ImagingDaemon.Run: the `uint64_t` image counter is a `nat`; wrapping after 2^64 frames is not modelled.
- The client's stack `imsubframe F` (socket.c:396, 406) outlives `get_imstorage` in the code. The model returns the subframe by value.
- A request buffer that `read` leaves uninitialised is modelled as NUL padding (`Daemon.Request`).
- StoreStatus: in builds without CLIENT, `store_image` first tries `get_imdata` when the image has no data (imfunctions.c:505-508); the model returns 1 straight away, since camera I/O is outside the model.
- Socket.SendIma: it requires the metadata and the pixel byte count to fit the 1 MiB buffer and an `int`. It does not model `snprintf` truncation of an overlong metadata text.

## Findings

| source | as written | input that shows it | evidently intended | confidence | as-written member | corrected member |
|---|---|---|---|---|---|---|
| socket.c:175 | `PUT("subY", subframe->Xstart)` sends the X start under `subY` | a subframe with Xstart = 10, Ystart = 20: the client reads subY = 10 | send `subframe->Ystart` | high; not executed | `WireRoundTrip.RoundTripAsWritten` | `WireRoundTrip.RoundTrip` |
| socket.c:170 | `PUT` casts every field to `int`, including the `time_t` `exposetime` (socket.c:183) | exposetime = 2^31 (January 2038) arrives as -2^31 | print the `time_t` at full width | medium; not executed | `WireRoundTrip.AsWrittenExposetimeWraps` | `WireRoundTrip.RoundTrip` |
| term.c:137 | a failed `try_connect` leaves `curspd` = 7, and `get_curspeed` (term.c:63-66) then reads `speeds[7]` | a device that never answers `O` | report "not connected" (-1) | high; not executed | `Term.UnansweredConnectOverrunsLadder` | `Term.SerialLink.CurSpeedChecked` |
| socket.c:261 | `read(sock, buff, BUFLEN)` can return BUFLEN, and `buff[_read] = 0` (socket.c:269) then writes one past the buffer | a client sending 10240 bytes at once | read at most BUFLEN-1 bytes | high; not executed | `Daemon.ReadAsWritten` | `Daemon.HandleData` |
| socket.c:250 | `send_ima` is called for a due frame without checking `storedima`, which `copyima` leaves NULL when a copy fails (socket.c:133-134, 136-151) | a frame is published, the next frame's copy fails, then a client connects with its counter at 0 | send only when a frame is stored | medium; not executed | `Daemon.NullFrameAfterFailedCopy` | `Daemon.Idle` |

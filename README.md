# bps-fuse in Dafny

bps-fuse is a FUSE file system that shows patched ROM images as read-only
files. It scans a base directory for source ROMs and for BPS and IPS patch
files. Each source ROM is keyed by its CRC-32. Each BPS patch whose source
checksum matches a source ROM becomes a virtual target file. When there is
exactly one source ROM, each IPS patch becomes one too, paired with that ROM.
A target is named after the patch with the source ROM's extension. A patch
that fails to parse ends the scan, and the patches after it are not exposed.
The patch is applied in memory the first time the file is read.

This project models the core of that program and proves properties of the
model:

- `readext.dfy` (module `ReadExt`): the BPS variable-length number decoder
  `read_vlq`. It is a loop over a byte sequence and a cursor, proved equal to
  the recursive `DecodeAt`. An encoder `Encode` is defined as the decoder's
  partner. Lemmas prove the round trips both ways, canonical encodings, and
  the value range of each encoded length.
- `utils.dfy` (module `Utils`): the duplicate `read_vlq` and
  `read_signed_vlq`. The sign is in bit 0.
- `bps.dfy` (module `Bps`):
  - `BpsPatch::new`, which parses the marker, the three numbers, the metadata
    and the footer.
  - `patched_rom`, the command interpreter. It fills a target array in place.
    Each command is proved against a per-command function on sequences.
    Those functions are composed into `Step`, `Run` and `Apply`.
- `ips.dfy` (module `Ips`):
  - `IpsPatch::new`, the record scan that computes the target size and the
    truncation size.
  - `target_size`.
  - `patched_rom`, which fills or copies record slices of a target array in
    place. It is related to a reference meaning: the records written over the
    padded source in file order.
- `patch.dfy` (module `Patches`): the `Patch` trait of `src/patch/mod.rs`,
  as a datatype with one case per implementation.
- `rom_manager.dfy` (module `Roms`): `extension_matches` and
  `RomManager::refresh`, as a class whose methods fill the source and target
  tables. The three loops are proved against prefix-recursive functions, and
  lemmas state the matching rules.
- `rom_filesystem.dfy` (module `Fs`): the handle table of `RomFilesystem`
  (`opendir`, `readdir`, `releasedir`, `getattr`, `open`, `read`,
  `release`), as a class with a validity invariant.
- `io.dfy` (module `Io`): shared types, the `Result` and `Failure` types,
  the big- and little-endian integer reads, and the buffer helpers.

Files are given as byte sequences. A directory is given as a sequence of
entries, each with a name, a directory flag and the file's bytes. CRC-32 is
a function parameter the model does not interpret.

A decoder failure is one of four kinds:

- `Format(e)`: the decoder's own error.
- `Eof`: a short read (`UnexpectedEof`).
- `NegativeSeek`: a seek before the start of the file.
- `Panic`: an underflow, out-of-range index or `unwrap` that aborts the
  request in the source.

## Model

| member | source | states |
|---|---|---|
| ReadExt.DecodeAt | src/readext.rs:6-19 | a decoded number ends after its first byte and within the input; no result when the input ends before a byte with bit 7 set |
| ReadExt.ReadVlq | src/readext.rs:6-19 | the `data`/`shift` loop returns exactly `DecodeAt(s, pos)`: the value and the position after the last byte read |
| ReadExt.RebaseStep | src/readext.rs:11-16 | a continuation byte adds its low 7 bits times `shift`; the scale is then multiplied by 128 and that new scale is added to the value |
| ReadExt.Encode | src/readext.rs:12-16 | the partner encoder: only the last byte of an encoding has bit 7 set |
| ReadExt.DecodeStopsAtFirstLast | src/readext.rs:9-14 | a decode succeeds iff a byte with bit 7 set follows `pos`, and it consumes the bytes up to and including the first such byte, no further |
| ReadExt.SingleByte | src/readext.rs:11-14 | a single terminating byte `b` decodes to `b & 0x7F`, a value below 128 |
| ReadExt.DecodeEncode | src/readext.rs:6-19 | the encoding of `n`, wherever it stands in a stream, decodes to `n` and is consumed exactly |
| ReadExt.EncodeDecode | src/readext.rs:15-16 | the bytes a decode consumes are the encoding of the decoded value, so no value has two encodings |
| ReadExt.EncodeInjective | src/readext.rs:15-16 | two values with the same encoding are equal |
| ReadExt.EncodedLength | src/readext.rs:15-16 | the encoding of `n` is `k` bytes long iff `Lowest(k) <= n < Lowest(k + 1)`, so each length covers one contiguous range of values |
| ReadExt.LowestGrows | src/readext.rs:15-16 | the smallest value with a `k`-byte encoding, `k >= 2`, is at least 128, because `shift` is added after each continuation byte |
| Utils.ReadVlq | src/utils.rs:6-19 | the duplicate loop computes the same function as `ReadExt::read_vlq` |
| Utils.SignedValue | src/utils.rs:21-30 | magnitude `u >> 1`; negative exactly when bit 0 is set and the magnitude is not zero |
| Utils.SignedRoundTrip | src/utils.rs:24-29 | every signed number comes back from its sign-in-bit-0 encoding |
| Utils.SignedCanonical | src/utils.rs:24-29 | 0 and 1 both give 0; every other unsigned value is the encoding of its signed value |
| Utils.ReadSignedVlq | src/utils.rs:21-30 | an unsigned read failure passes through unchanged; otherwise the signed value of the decoded number and the position after it |
| Io.U16Be | src/patch/ips.rs:59-61 | the 16-bit big-endian read: the high byte first, below 65536 |
| Io.U24Be | src/patch/ips.rs:54 | the 24-bit big-endian read: its three bytes are the value's base-256 digits, high first |
| Io.U32Le | src/patch/bps.rs:88-90 | the 32-bit little-endian read: its four bytes are the value's base-256 digits, low first |
| Io.Zeros | src/patch/bps.rs:138 | the new target buffer: `n` bytes, all zero |
| Io.Splice | src/patch/ips.rs:108-110 | writing `piece` at `at` changes exactly `[at, at + len)` and keeps the length |
| Io.Resize | src/patch/ips.rs:88 | `Vec::resize`: the new length, the old bytes below it, zeros past the old end |
| Io.CopyIn | src/patch/bps.rs:165-176 | the in-place copy loop makes the array equal to the spliced sequence |
| Bps.Vlq | src/patch/bps.rs:76-79 | a header number read succeeds iff `DecodeAt` does, with the same value and position; otherwise `UnexpectedEof` |
| Bps.Header | src/patch/bps.rs:66-111 | fewer than 4 bytes is `UnexpectedEof`; with at least 4 bytes, `FormatMarker` iff the first 4 are not `BPS1`; a parsed header implies the marker and a file of at least 12 bytes |
| Bps.HeaderFields | src/patch/bps.rs:76-90 | the header holds source size, target size and metadata size in that order, then that many metadata bytes; the commands start right after them; the checksums are the little-endian words of the last 12 bytes, in the order source, target, patch |
| Bps.New | src/patch/bps.rs:66-111 | the sequential parse returns exactly `Header(f)` |
| Bps.Command | src/patch/bps.rs:159-162 | the action is the low 2 bits and the length is `(data >> 2) + 1 >= 1` |
| Bps.CopyWithin | src/patch/bps.rs:203-207 | the byte-by-byte copy inside the target changes only `[to, to + n)` and keeps the length |
| Bps.CopyWithinReads | src/patch/bps.rs:203-207 | byte `k` of a copy from `from` to `to` is the old byte `from + k` when `from >= to` or `from + k < to`; otherwise it is the byte this same copy already wrote at `from + k` |
| Bps.Step | src/patch/bps.rs:159-208 | a command advances the patch cursor within the file and moves the output cursor by exactly its length, within the target, whose length it keeps |
| Bps.SourceReadStep | src/patch/bps.rs:165-170 | `SourceRead` leaves the cursor after the command, moves the output cursor by the length and keeps the target length |
| Bps.TargetReadStep | src/patch/bps.rs:171-176 | `TargetRead` consumes its `length` bytes of the patch and moves the output cursor by the length |
| Bps.SourceCopyStep | src/patch/bps.rs:177-192 | `SourceCopy` consumes its signed offset and moves the output cursor by the length |
| Bps.TargetCopyStep | src/patch/bps.rs:193-208 | `TargetCopy` consumes its signed offset and moves the output cursor by the length |
| Bps.StepKeepsOutside | src/patch/bps.rs:164-208 | a command leaves every target byte outside `[out, out + length)` unchanged |
| Bps.SourceReadContents | src/patch/bps.rs:165-170 | `SourceRead` writes `source[i]` to `target[i]` for each `i` in `[out, out + length)` |
| Bps.TargetReadContents | src/patch/bps.rs:171-176 | `TargetRead` writes the `length` patch bytes after the command, in order |
| Bps.SourceCopyContents | src/patch/bps.rs:177-192 | `SourceCopy` shifts the source cursor by the signed delta, which must stay non-negative, copies from there, and advances the cursor by `length` |
| Bps.TargetCopyContents | src/patch/bps.rs:193-208 | `TargetCopy` shifts the target cursor by the signed delta, copies from there byte by byte (reading bytes it wrote earlier), and advances the cursor by `length` |
| Bps.Run | src/patch/bps.rs:149-210 | commands run while the patch cursor is below the end; they keep the target length, never move the output cursor back, and stop at or past the end |
| Bps.Apply | src/patch/bps.rs:127-221 | a source of the wrong length is `SourceLength`, and one with the wrong CRC is `SourceChecksum`; for a valid source, a patch shorter than its footer panics, a failing command run gives its error, and a finished run gives its target when the target's CRC matches and `TargetChecksum` when it does not; a result has the target size and the target checksum |
| Bps.RunKeepsZeroTail | src/patch/bps.rs:138-208 | the target buffer, allocated as zeros, stays zero from the output cursor on |
| Bps.ApplyOutcome | src/patch/bps.rs:143-220 | a successful result is the target after the commands ran up to 12 bytes before the end, and it is zero past the last output cursor |
| Bps.CopyWithinArray | src/patch/bps.rs:203-207 | the in-place copy loop makes the array equal to `CopyWithin` of its old contents |
| Bps.Execute | src/patch/bps.rs:159-208 | one pass of the loop body leaves the cursors and the array as `Step` prescribes, or fails with `Step`'s error |
| Bps.ExecuteSourceRead | src/patch/bps.rs:165-170 | the in-place `SourceRead` agrees with `SourceReadStep` |
| Bps.ExecuteTargetRead | src/patch/bps.rs:171-176 | the in-place `TargetRead` agrees with `TargetReadStep` |
| Bps.ExecuteSourceCopy | src/patch/bps.rs:177-192 | the in-place `SourceCopy` agrees with `SourceCopyStep` |
| Bps.ExecuteTargetCopy | src/patch/bps.rs:193-208 | the in-place `TargetCopy` agrees with `TargetCopyStep` |
| Bps.RunCommands | src/patch/bps.rs:145-210 | the `while` loop leaves the cursors and the array as `Run` prescribes |
| Bps.PatchedRom | src/patch/bps.rs:127-221 | `patched_rom` returns exactly `Apply(p, f, source, crc)` |
| Ips.Records | src/patch/ips.rs:53-68 | the record list ends at the first offset equal to `EOF` (0x454F46), so no record starts there; a short read is `UnexpectedEof` |
| Ips.MaxEnd | src/patch/ips.rs:63-66 | the running maximum is at least the start and at least every record's end |
| Ips.TruncatedSize | src/patch/ips.rs:70 | the truncation size is present iff three bytes follow the `EOF` offset |
| Ips.Scan | src/patch/ips.rs:39-78 | fewer than 5 bytes is `UnexpectedEof`; otherwise `FormatMarker` iff the file does not start with `PATCH` |
| Ips.ScanFrom | src/patch/ips.rs:53-70 | the scan loop from `pos` fails only with `UnexpectedEof` and never lowers the size |
| Ips.ScanFromRecords | src/patch/ips.rs:53-70 | the scan loop computes the maximum record end and the truncation size read after the `EOF` offset of the record list |
| Ips.MaxEndAttained | src/patch/ips.rs:63-66 | the computed size is the starting size or the end of some record |
| Ips.ScanSize | src/patch/ips.rs:42-70 | the target size is the maximum of the source length and every record end, so every record fits the padded buffer; the truncation size is the 24-bit number after `EOF`, if present |
| Ips.New | src/patch/ips.rs:39-78 | the loop, with its seek past literal bytes, returns exactly `Scan(f, sourceLength)` |
| Ips.ApplyFrom | src/patch/ips.rs:98-112 | the apply loop keeps the buffer length and fails only with `UnexpectedEof` or a panic on an out-of-range slice |
| Ips.TargetSize | src/patch/ips.rs:82-84 | `target_size()`: the truncation size when there is one, the scanned size otherwise |
| Ips.Apply | src/patch/ips.rs:86-119 | `FormatMarker` iff the marker is wrong; a result is exactly `target_size()` long |
| Ips.Overlay | src/patch/ips.rs:106-110 | writing one record keeps the buffer length |
| Ips.ApplyRecords | src/patch/ips.rs:98-112 | the reference meaning of a record list keeps the buffer length |
| Ips.ApplyRecordsUntouched | src/patch/ips.rs:87-88 | a byte no record covers keeps its source or padding value |
| Ips.ApplyRecordsLastWins | src/patch/ips.rs:98-112 | a byte covered by the last record takes that record's byte, so a later overlapping record overwrites an earlier one |
| Ips.ApplyFromRecords | src/patch/ips.rs:98-112 | when every record fits, the apply loop writes exactly the scanned records in file order |
| Ips.ApplyScanned | src/patch/ips.rs:86-119 | a patch applied to the source it was scanned against never panics; the result is the padded source with every record written over it in order, cut or padded to `target_size()` |
| Ips.Repeat | src/patch/ips.rs:106-108 | an RLE record's bytes: `count` copies of the value |
| Ips.Fill | src/patch/ips.rs:108 | `fill` sets exactly `[at, at + count)` to the value |
| Ips.ApplyRecordAt | src/patch/ips.rs:99-111 | one pass of the loop body agrees with `ApplyFrom`: the same error, the `EOF` stop with the buffer unchanged, or the next record position |
| Ips.PatchedRom | src/patch/ips.rs:86-119 | `patched_rom` returns exactly `Apply(p, f, source)` |
| Patches.TargetSize | src/patch/mod.rs:6-10 | `target_size()` dispatches to the BPS header's target size or the IPS `target_size()` |
| Patches.Patched | src/patch/mod.rs:6-10 | a patched ROM is exactly `target_size()` bytes long, for both implementations |
| Patches.PatchedRom | src/patch/mod.rs:9 | dispatch returns exactly `Patched(p, crc)` |
| Roms.LastDot | src/rom_manager.rs:53-55 | the index of the last `.`, or none when the name has no `.` |
| Roms.Extension | src/rom_manager.rs:53-55 | an extension is shorter than the name and has no `.` |
| Roms.Stem | src/rom_manager.rs:83 | the name is the stem, `.`, then the extension; without an extension it is the name |
| Roms.ToAsciiLowercase | src/rom_manager.rs:56 | each character lower-cased, ASCII only |
| Roms.NoExtensionNoMatch | src/rom_manager.rs:52-59 | a name without an extension matches no list of non-empty extensions |
| Roms.ExtensionMatches | src/rom_manager.rs:52-59 | with no extension, the name matches iff the list holds the empty string; otherwise iff it holds the extension lower-cased |
| Roms.ExtensionMatchesIgnoresCase | src/rom_manager.rs:52-59 | a name matches iff some listed extension equals its extension lower-cased |
| Roms.SetExtension | src/rom_manager.rs:83 | an empty extension leaves the stem alone; a non-empty extension without a `.` becomes the new name's extension, and the stem is kept |
| Roms.TargetName | src/rom_manager.rs:82-83 | for a non-empty patch name, the target has the patch's stem and the source ROM's extension; a source without an extension gives the bare stem |
| Roms.Sources | src/rom_manager.rs:66-69 | the reference meaning of the source loop: each key holds a ROM-extension file whose CRC-32 is that key |
| Roms.BpsPhase | src/rom_manager.rs:76-91 | the reference meaning of the BPS loop: every target it adds is a BPS patch, and an error it ends with is a BPS error |
| Roms.Only | src/rom_manager.rs:97 | the one source of a one-entry table is a value of that table |
| Roms.IpsPhase | src/rom_manager.rs:93-104 | the reference meaning of the IPS loop: it never removes a target it started with, and it ends with an error only for an IPS scan with exactly one source |
| Roms.Refreshed | src/rom_manager.rs:47-113 | the reference meaning of `refresh`: the source table is the one the source loop builds; with no sources there are no targets and no error; an IPS error happens only with exactly one source |
| Roms.Files | src/rom_manager.rs:61-64 | an entry is listed iff it is in the directory and not a directory |
| Roms.SourcesSound | src/rom_manager.rs:66-69 | every source-table entry is a ROM-extension file stored under its own CRC-32 |
| Roms.SourcesComplete | src/rom_manager.rs:66-69 | every ROM-extension file's CRC-32 is a key; with no later file of equal CRC it is that file's entry, so the last one wins |
| Roms.BpsPhaseSound | src/rom_manager.rs:76-91 | every BPS target comes from a `.bps` file whose header parses and whose source checksum is a key, named after the patch with that source's extension |
| Roms.BpsPhaseStops | src/rom_manager.rs:77 | after a patch fails to parse, the remaining files change nothing |
| Roms.IpsPhaseStops | src/rom_manager.rs:98 | after an IPS scan fails, the remaining files change nothing |
| Roms.IpsPhaseOverrides | src/rom_manager.rs:76-104 | the IPS loop adds its targets over the BPS ones, so an IPS target replaces a BPS target of the same name |
| Roms.IpsPhaseNeedsOneSource | src/rom_manager.rs:94-95 | with more than one source ROM, no IPS target is added and no error occurs |
| Roms.IpsPhaseSound | src/rom_manager.rs:93-104 | with one source ROM, every IPS target is a `.ips` file scanned against it and paired with it |
| Roms.BpsPhaseComplete | src/rom_manager.rs:76-91 | when the BPS loop ends without an error, every `.bps` file whose header parses and whose source checksum is in the table is exposed under the patch's name with the source's extension; that entry pairs the patch with the source unless a later `.bps` file takes the same name |
| Roms.IpsPhaseComplete | src/rom_manager.rs:93-104 | with exactly one source ROM, when the IPS loop ends without an error, every `.ips` file that scans against that ROM is exposed under the patch's name with the ROM's extension; that entry pairs the patch with the ROM unless a later `.ips` file takes the same name |
| Roms.RefreshedComplete | src/rom_manager.rs:47-113 | after a `refresh` without an error, every `.bps` file whose source checksum is in the source table is a target, and so, with exactly one source ROM, is every `.ips` file that scans against it |
| Roms.NoSourcesNoTargets | src/rom_manager.rs:71-74 | without a ROM-extension file there are no sources and no targets |
| Roms.RefreshedTargets | src/rom_manager.rs:47-113 | every exposed target is a BPS target whose source checksum is in the table, or an IPS target when exactly one source exists |
| Roms.OnlyIsUnique | src/rom_manager.rs:97 | with one source, `values().next()` is that one source |
| Roms.RomManager.constructor | src/rom_manager.rs:38-42 | both tables start empty |
| Roms.RomManager.Refresh | src/rom_manager.rs:47-113 | the tables are cleared first, then set from the directory entries alone; a patch error ends `refresh` with that error |
| Roms.RomManager.CollectSources | src/rom_manager.rs:66-69 | the first loop builds `Sources(files, crc)` |
| Roms.RomManager.AddBpsTargets | src/rom_manager.rs:76-91 | the second loop builds the BPS phase's targets and error |
| Roms.RomManager.AddIpsTargets | src/rom_manager.rs:93-104 | the third loop builds the IPS phase's targets, over the BPS ones, and its error |
| Fs.Slice | src/rom_filesystem.rs:227-233 | empty when `offset > len`; otherwise exactly `min(size, len - offset)` bytes of the data from `offset` |
| Fs.SliceConsecutive | src/rom_filesystem.rs:227-233 | two consecutive reads return what one read of both sizes returns |
| Fs.SliceWhole | src/rom_filesystem.rs:227-233 | a read from 0 at least as large as the file returns the file |
| Fs.RomFilesystem.constructor | src/rom_filesystem.rs:45-51 | no handles, and the counter starts at 1 |
| Fs.RomFilesystem.OpenDir | src/rom_filesystem.rs:95-114 | the root gets the current counter value, a number not in use, and the counter grows by one; any other path is ENOENT and changes nothing |
| Fs.RomFilesystem.ReadDir | src/rom_filesystem.rs:116-144 | on a directory handle: `.`, `..`, then each target ROM exactly once as a regular file; otherwise ENOENT |
| Fs.RomFilesystem.ReleaseDir | src/rom_filesystem.rs:146-155 | succeeds iff the handle is a directory handle, which it removes; otherwise ENOENT and no change |
| Fs.FileAttr | src/rom_filesystem.rs:71-87 | a regular file whose size is the length of every patched ROM the patch produces |
| Fs.RomFilesystem.GetAttr | src/rom_filesystem.rs:162-182 | with a handle: the handle's stored attributes, or ENOENT when it is not open; without one: `RootAttr` for the root, `FileAttr` of the patch for a target ROM, ENOENT otherwise |
| Fs.RomFilesystem.Open | src/rom_filesystem.rs:184-207 | a target ROM gets the current counter value, a fresh number, with no cached bytes; any other path is ENOENT and changes nothing |
| Fs.RomFilesystem.Read | src/rom_filesystem.rs:209-240 | the first read of a file handle caches the patched ROM and later reads reuse it; the reply is `Slice(rom, offset, size)`; a failed patch aborts the request; any other handle is ENOENT |
| Fs.RomFilesystem.Release | src/rom_filesystem.rs:242-259 | succeeds iff the handle is a file handle, which it removes; otherwise ENOENT and no change |
| Fs.CachedSizeMatches | src/rom_filesystem.rs:71-73 | the size `getattr` reports for an open file equals the length of the bytes `read` serves |

## Left out

- File and directory I/O: `File::open`, `seek`, `stream_len`, `fs::read` and `read_dir` are replaced by given byte sequences and directory entries. A patch value carries the bytes its patch file and source ROM had at refresh time; a file that changes between refresh and read is not modelled.
- `read_dir` errors, entries that fail (`filter_map(|e| e.ok())`) and the `file_type().unwrap()` panic: the directory is a given list of readable entries.
- Timestamps (`access_time`, `create_time`, `modify_time`), `Timespec`, `geteuid`/`getegid` and every `FileAttr` field except kind and size.
- CRC-32 (`crc32::checksum_ieee`): a function parameter, not an implementation of IEEE 802.3 CRC-32.
- The BPS patch checksum is read but never verified, as in the source (TODO at `src/patch/bps.rs:140`).
- The final `TargetLength` check (`src/patch/bps.rs:212-214`) cannot fail: the buffer is allocated at the target size and never resized. It is not written, because a branch that cannot be taken adds nothing.
- Machine integers: `u64` overflow of long VLQs, `usize` wrap-around in release builds, and the `u64` handle counter are unbounded integers. A relative offset that would go below zero (`src/patch/bps.rs:182`, `src/patch/bps.rs:198`) is a panic, as in a debug build.
- Bps.Step: all bounds of a command are checked before any byte is written. The source fails at the first bad byte, after writing the earlier ones. The outcome is the same because the buffer is dropped on failure, but the partly written buffer is not modelled.
- Ips.ApplyFrom: the same applies to a `read_exact` that fails part-way through a literal record.
- `RomManager::new`: it is the constructor followed by `Refresh`; the model keeps the two calls separate.
- Roms.RomManager.Refresh: the `eprintln!` diagnostics are left out. The conversion of a patch error into `io::Error` by `?` is modelled as the patch error itself.
- Non-UTF-8 file names, and the `strip_prefix(...).unwrap()` of the base directory and of the mount root: names are strings relative to the base directory, and the root is the empty path.
- Fs.RomFilesystem.ReadDir: `HashMap` iteration order is not modelled. The listing is any order of the table's keys, each exactly once.
- `Mutex` and `Arc` locking, and `src/rom_watcher.rs` (the inotify thread that calls `refresh`): every operation runs alone.
- Fs.RomFilesystem.Read: a failed patch is the reply `Panicked`, and the handle table stays usable. In the source, `patched_rom().unwrap()` (`src/rom_filesystem.rs:223`) panics while the `handles` lock taken at line 218 is held. That poisons the mutex, so every later `lock().unwrap()` on it panics too (lines 97, 118, 147, 165, 187, 218, 251). The model has no poisoned state.
- Allocation limits: `vec![0; metadata_size as usize]` (`src/patch/bps.rs:80`) and `vec![0; self.target_size as usize]` (`src/patch/bps.rs:138`) panic with a capacity overflow above `isize::MAX`, and can fail for lack of memory below it. The model has no memory limit. Bps.Header answers such a metadata size with `UnexpectedEof`, because it needs more bytes than the file has. Bps.Apply allocates a target of any size.
- UPS: the source has only a TODO (`src/rom_manager.rs:106`); there is nothing to model.
- The `init` and `access` callbacks, which only return `Ok(())`, and the flags in `open` and `opendir` replies, which are always 0.
- `src/main.rs` (argument handling and the FUSE mount) and `src/bps.rs` (a superseded stub).
- `set_source_path` and `source_checksum` accessors of `BpsPatch`: the source is stored directly in the `Patch` value.

# OGR-backed vector maps: open routines and the feature index

A model of the three routines the GRASS vector library uses to open a
vector map whose features live in an OGR layer (`lib/vector/Vlib/open_ogr.c`):

- the **level-1 open** (`V1_open_old_ogr`). It checks that a data source name and
  a layer name are set. It opens the data source, finds the layer by an exact,
  first-match scan of the layer names, and resets the per-session caches.
- the **level-2 open** (`V2_open_old_ogr`). It reads the feature index file
  ("fidx"). That is a 5-byte header (version major/minor, back-compat major/minor,
  byte-order tag), a 4-byte header length L, and at position L a 4-byte record
  count followed by that many 4-byte offsets. The version gate accepts the file,
  accepts it with a warning, or rejects it. The routine fills the map's offset table.
- the **creation of a new layer** (`V1_open_new_ogr`). It looks up the driver and
  creates the data source. A same-named layer is fatal without the overwrite flag;
  with the flag it is deleted (located by handle identity). Then a point layer is
  created.

Files and modules:

- `portable.dfy`, module `Portable`: bytes and the 4-byte two's-complement decoding
  and encoding in either byte order, single values and tables.
- `ogr.dfy`, module `Ogr`: OGR handles as objects (`Layer`, `Driver`,
  `DataSource`), so handle identity is object identity. It also holds the
  first-match name search and layer counting.
- `fidx.dfy`, module `Fidx`: the version predicate, `Decode` (what the reader
  makes of a whole file), a writer `Encode` with round-trip and truncation
  lemmas, and `GvFile`, the read cursor over the file's bytes.
- `open_ogr.dfy`, module `OpenOgr`: `MapInfo` (the `Map_info` fields the routines
  assign) with `OpenOldLevel1`, `OpenOldLevel2` and `OpenNew`.

Outcomes are `Done` (return 0), `Failed` (return -1) and `Fatal` (the fatal-error
handler, which ends the process). The warnings printed on the way are listed in
`Done`/`Failed`.

Foreign calls are parameters. The data source `OGROpen` returns, the driver
`OGRGetDriverByName` returns and the data source `OGR_Dr_CreateDataSource`
returns are each passed in (null for failure). So is the process-wide overwrite
flag. Whether OGR carries out a layer deletion or creation is passed in as a flag.
The fidx file is passed in as `None` (cannot be opened) or its bytes.

The model follows the code as written, including these points:

- there is no second indirection: the record count is read at the header length
  itself (open_ogr.c:178-181);
- a failed layer creation returns -1 with a warning; it is not fatal (:271-275);
- the version test is `major > 5 || minor > 0` on each pair. It is not a
  lexicographic comparison, so 4.1 counts as newer than 5.0 (:157-158,
  `Fidx.NewerIsNotLexicographic`).

Behaviour decided by code outside this file, and the interpretation chosen:

- C `char` is assumed signed, as on the common x86 and x86-64 platforms. Header bytes
  are read into a `char`, so bytes above 127 are negative.
- Tag 1 (big-endian) selects big-endian decoding; every other tag selects
  little-endian decoding.
- A portable read succeeds only when all requested items are present. A read of
  zero items succeeds. A short read leaves the destination buffer as it was and
  moves the cursor to the end of the data.
- A seek to a negative header length fails, and that failure is fatal. A seek past
  the end succeeds, and the read after it is short.
- `size_t` is assumed to be 64 bits wide. A negative record count then makes the
  buffer allocation (:185-186) ask for an impossible size, which is fatal.
- The layer creation never checks the map's layer name and hands it to OGR even
  when it is null. OGR's name lookup finds no layer for a null name, and its layer
  creation refuses one, so the creation then returns -1 with a warning.

## Model

| member | source | states |
|---|---|---|
| `OpenOgr.MapInfo.OpenOldLevel1` | lib/vector/Vlib/open_ogr.c:45-117 | A missing data source name, then a missing layer name, is fatal with nothing changed. A data source that cannot be opened is fatal. Otherwise the map holds the data source. If no layer name equals the requested one, the data source is destroyed and the open is fatal. Otherwise the map's layer is the first exactly matching layer, the caches are reset, the result is 0 and the index fields are untouched. |
| `OpenOgr.FindLayer` | lib/vector/Vlib/open_ogr.c:84-95 | The index loop returns exactly `FirstNamed` of the data source's layers: the least index whose name equals the requested name, or none. |
| `OpenOgr.MapInfo.ResetCaches` | lib/vector/Vlib/open_ogr.c:105-114 | Afterwards `lines` and `lines_types` are null, `lines_alloc = lines_num = lines_next = 0`, `with_z` is WITHOUT_Z, the feature cache is null and its id is -1. All other fields are unchanged. |
| `Ogr.FirstNamed` | lib/vector/Vlib/open_ogr.c:88-95 | A found index holds a layer whose name equals the target exactly, and every earlier layer's name differs. When nothing is found, no layer has that name. |
| `OpenOgr.ExactFirstMatch` | lib/vector/Vlib/open_ogr.c:91 | Of layers "A", "AB", "a", the name "A" selects "A" only. There is no case folding and no prefix matching, and the first match wins. |
| `OpenOgr.MapInfo.OpenOldLevel2` | lib/vector/Vlib/open_ogr.c:127-201 | A missing fidx file warns and returns -1 with the map unchanged. For a present file, the outcome is `Report(Decode(bytes))`. The index fields end as `IndexAfter` says. A result other than 0 never sets `next_line`. Handles and caches are unchanged. |
| `OpenOgr.MapInfo.ReadBody` | lib/vector/Vlib/open_ogr.c:169-200 | Starting after the 5 header bytes, the header length, the seek, the count and the offsets are read. The outcome and the index fields follow `DecodeBody` of the file. A complete read gives a fresh buffer holding the decoded table, with `offset_alloc == offset_num` equal to its length and `next_line == 1`. |
| `OpenOgr.MapInfo.ReadOffsets` | lib/vector/Vlib/open_ogr.c:184-192 | A fresh buffer of `count` entries is allocated, with `offset_alloc == count`. The read succeeds exactly when `4 * count` bytes remain. On success the buffer holds the decoded offsets. |
| `OpenOgr.MapInfo.IndexAfter` | lib/vector/Vlib/open_ogr.c:181-198 | A loaded table gives a fresh buffer holding it, with `offset_num = offset_alloc =` its length and `next_line = 1`. A short read of the offsets leaves a fresh buffer of the announced size, with both counts set to that size. An impossible allocation leaves only the count set. Otherwise nothing changes. |
| `OpenOgr.ReportDone` | lib/vector/Vlib/open_ogr.c:147-200 | The level-2 open returns 0 exactly when the body decodes to a complete table. A short read never yields 0. |
| `Fidx.NewerThanReader` | lib/vector/Vlib/open_ogr.c:157-158 | A version pair is newer than the reader's 5.0 when its major number is above 5 or its minor number is above 0. Each number is tested on its own. |
| `Fidx.Decode` | lib/vector/Vlib/open_ogr.c:147-192 | The reader's verdict on a whole file. Fewer than 5 bytes is a short header. The file is rejected when both version pairs are newer. Otherwise it is parsed, with a warning when the version is newer, and the body is decoded in the tag's byte order. |
| `Fidx.DecodeBody` | lib/vector/Vlib/open_ogr.c:173-192 | After the header, in this order: a short read of the length, a seek to a negative length, a short read of the count at the length, a negative count, a short read of the offsets, or the table of `count` offsets that follows the count. |
| `OpenOgr.Report` | lib/vector/Vlib/open_ogr.c:147-200 | How a decoded file ends the level-2 open. A short read gives -1. A rejected version, a failed seek or an impossible allocation is fatal. A loaded table gives 0. Once the header is read, the -1 and the 0 carry the newer-format warning when it was given. |
| `Portable.OrderOfTag` | lib/vector/Vlib/open_ogr.c:169 | The byte-order tag handed to the portable codec selects big-endian for 1 and little-endian for every other value. |
| `Fidx.NewerIsNotLexicographic` | lib/vector/Vlib/open_ogr.c:157-158 | 4.1, 5.1 and 6.0 count as newer than the reader's 5.0; 5.0 and 4.0 do not. |
| `Fidx.VersionGate` | lib/vector/Vlib/open_ogr.c:150-167 | The file is rejected iff both the version and the back-compat version are newer. Otherwise parsing continues, with a warning iff only the version is newer. |
| `Fidx.SignedChar` | lib/vector/Vlib/open_ogr.c:130-154 | A header byte becomes a value in -128..127 congruent to it modulo 256. It is negative exactly for bytes above 127. |
| `Fidx.DecodeEncode` | lib/vector/Vlib/open_ogr.c:169-198 | Take a file written with an accepted header, any header length 9 + padding, and N offsets in either byte order. It decodes to a complete table equal entry by entry to the offsets written. The warning is given exactly when the version is newer. |
| `Fidx.TruncatedFails` | lib/vector/Vlib/open_ogr.c:147-192 | Every proper prefix of such a file stops at a short read of the header, length, count or offsets. It never loads a table and is never fatal. |
| `Fidx.EncodeParts` | lib/vector/Vlib/open_ogr.c:147-191 | A written file holds the header at 0, the header length at 5, the count at L and the offsets from L+4. |
| `Fidx.GvFile.ReadBytes` | lib/vector/Vlib/open_ogr.c:148-149 | A read of n bytes succeeds iff n bytes remain. It then returns exactly them and advances the cursor by n. |
| `Fidx.GvFile.ReadInt32` | lib/vector/Vlib/open_ogr.c:174-182 | A 4-byte read succeeds iff 4 bytes remain. It then returns their signed value in the given byte order and advances the cursor by 4. |
| `Fidx.GvFile.ReadInt32s` | lib/vector/Vlib/open_ogr.c:190-192 | A read of n integers into the buffer succeeds iff `4n` bytes remain. It then fills the buffer in place with the decoded table; otherwise the buffer is unchanged. |
| `Fidx.GvFile.Seek` | lib/vector/Vlib/open_ogr.c:178 | An absolute seek succeeds iff the position is not negative, and it may go past the end. |
| `Portable.DecodeInt32` | lib/vector/Vlib/open_ogr.c:169-176 | Four bytes in the tag's byte order give a signed 32-bit value. |
| `Portable.DecodeEncodeInt32` | lib/vector/Vlib/open_ogr.c:169-176 | Decoding an encoded 32-bit value gives it back, in either byte order. |
| `Portable.EncodeDecodeInt32` | lib/vector/Vlib/open_ogr.c:169-176 | Encoding a decoded value gives back the same 4 bytes, in either byte order. |
| `Portable.OrderOfTagOf` | lib/vector/Vlib/open_ogr.c:154-170 | The tag a writer stores for a byte order selects that byte order again. |
| `Portable.DecodeInts` | lib/vector/Vlib/open_ogr.c:190-191 | A table of 4n bytes decodes to n signed 32-bit entries. |
| `Portable.DecodeIntsAt` | lib/vector/Vlib/open_ogr.c:190-191 | Entry k of a decoded table is the value of bytes 4k to 4k+4. |
| `Portable.DecodeEncodeInts` | lib/vector/Vlib/open_ogr.c:190-191 | Decoding an encoded table gives back the same entries, in either byte order. |
| `OpenOgr.MapInfo.OpenNew` | lib/vector/Vlib/open_ogr.c:213-279 | An unknown driver warns and returns -1 with the map and data source unchanged. A data source that cannot be created warns and returns -1 with only the driver set. Otherwise `OpenNewEffect` holds for the map's layer name, null included: a same-named layer is fatal without overwrite, with nothing deleted. With overwrite that layer is deleted first, and a failed deletion returns -1 with no layer created. A created point layer named after the map's layer name is appended, becomes the map's layer, and the result is 0. A failed creation, or a null name, returns -1. After an accepted overwrite the old layer's handle is no longer in the data source. |
| `OpenOgr.OpenNewEffect` | lib/vector/Vlib/open_ogr.c:242-278 | The decision of the layer creation. If a layer has the target name (never for a null name), no overwrite is fatal, and a refused deletion is -1 with the overwrite and deletion warnings and no change. Otherwise the first such layer is dropped and the creation follows with the overwrite warning. With no same-named layer, the creation follows with no warning. |
| `OpenOgr.CreationEffect` | lib/vector/Vlib/open_ogr.c:264-278 | A named creation that OGR accepts appends a point layer with the target name, makes it the map's layer and gives 0 with the warnings so far. Otherwise nothing is appended, the map's layer is kept, and the result is -1 with a creation warning. |
| `OpenOgr.OpenNewLeavesOneNamed` | lib/vector/Vlib/open_ogr.c:242-278 | After a successful creation, the map's layer is a point layer with the target name in the data source. If at most one layer had that name before, exactly one has it after. |
| `Ogr.OverwriteLeavesOneNamed` | lib/vector/Vlib/open_ogr.c:242-269 | Dropping the first same-named layer (if any) and appending one new layer of that name leaves exactly one such layer, when there was at most one. |
| `Ogr.CountNamedRemoveFirst` | lib/vector/Vlib/open_ogr.c:244-250 | Deleting the first layer with a name removes exactly one layer of that name. |
| `Ogr.CountNamedZero` | lib/vector/Vlib/open_ogr.c:242-243 | No layer has the name exactly when the same-name search finds none. |
| `Ogr.DataSource.LayerByName` | lib/vector/Vlib/open_ogr.c:242 | The layer found by name is the first exactly matching layer, or null when none matches or the name is null. |
| `Ogr.DataSource.DeleteLayer` | lib/vector/Vlib/open_ogr.c:250 | Deleting layer i succeeds iff OGR agrees and i is a layer index. It removes exactly entry i, keeps the handles distinct, and the deleted handle no longer occurs in the data source. |
| `Ogr.RemovedIsGone` | lib/vector/Vlib/open_ogr.c:250 | In a list without repeated handles, the handle removed at i occurs nowhere in the rest. |
| `Ogr.DataSource.CreateLayer` | lib/vector/Vlib/open_ogr.c:268-271 | An accepted creation with a name appends one fresh layer with that name and geometry. A refused one, or one with a null name, gives no handle and changes nothing. |
| `Ogr.DataSource.Destroy` | lib/vector/Vlib/open_ogr.c:97 | The data source is closed and its layers are unchanged. |
| `Ogr.DistinctRemoveAt` | lib/vector/Vlib/open_ogr.c:250 | Removing one layer keeps the remaining handles distinct. |

## Left out

- OGR itself (`OGRRegisterAll`, `OGROpen`, `OGR_DS_*`, `OGR_L_*`, `OGR_FD_GetName`, `OGR_Dr_*`, `CSLDestroy`) is foreign. Its answers are parameters, and its layers are objects with names.
- `Ogr.DataSource.LayerByName`: modelled as the first exact match. OGR's own lookup also falls back to a case-insensitive match, which is not modelled.
- `Ogr.DataSource.CreateLayer`: a created layer is appended at the end of the list. Where a driver actually places it is driver-defined.
- Building the fidx path, opening and closing the file (`sprintf`, `dig_file_init`, `G_fopen_old`, `fclose`) is I/O. The file is given as absent or as its bytes.
- The portable codec (`dig__fread_port_*`, `dig_init_portable`, `dig_set_cur_port`) lives in a file that is not part of this model. It is stated as 4-byte decoding, with the byte order an explicit parameter instead of a process-global "current port". The interpretations chosen for it are listed above.
- `Fidx.GvFile.ReadInt32s`: on a short read the buffer is left untouched. The real codec may leave partially read entries in it, which the model does not capture.
- `OpenOgr.MapInfo.ReadBody`: a short read of the record count leaves `offset_num` unchanged. The real codec may have stored part of it, which the model does not capture.
- `Fidx.DecodeBody`: with a 32-bit `size_t`, `offset_num * sizeof(int)` at :186 wraps modulo 2^32. A negative count such as -2^30 would then get a small buffer instead of a fatal error, and the read that follows fails with -1. Only the 64-bit case is modelled.
- `OpenOgr.MapInfo.ReadOffsets`: allocation of a buffer for a non-negative count always succeeds. An out-of-memory failure for any huge non-negative count is not modelled. The allocation comes before the read, so it could happen whether or not the file holds that many offsets.
- Resource release: the fidx file is not closed on the -1 paths, and nothing is freed. Neither is modelled.
- The text of warnings and debug messages is left out. Only the kind of each warning is kept.
- A fatal error ends the process. The model returns `Fatal` instead, and the map state after it has no meaning.
- Unused inputs are accepted and ignored, as in `V1_open_old_ogr` and `V1_open_new_ogr`: the `update` flag of the level-1 open (its check is commented out) and the `name` and `with_z` parameters of the layer creation (the map's layer name is used instead).
- 3D, spatial reference and layer creation options are left out. A new layer is always a point layer.
- Reading features through the loaded table, and building the fidx file, happen outside this file. The writer `Fidx.Encode` exists only to state the round trip.

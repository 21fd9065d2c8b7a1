# RethinkDB metainfo, metadata superblock and table viewer, in Dafny

This project models three small sequential pieces of RethinkDB and proves
properties of them.

- **Superblock metainfo codec** (`src/btree/reql_specific.cc`). A table shard keeps
  its metainfo as one buffer of records. Each record is a 4-byte length, the key
  bytes, a 4-byte length, then the value bytes. `set_superblock_metainfo` writes
  the buffer. `superblock_metainfo_iterator_t` walks it defensively: a truncated
  or corrupt tail ends the walk instead of reading past the end.
  `get_superblock_metainfo` drains the iterator into a list. The shard's
  secondary-index block id is stored as a decimal string, through
  `set_rocks_sindex_block_id` and `get_rocks_sindex_block_id`.
- **Metadata superblock and metadata keys**
  (`src/clustering/administration/persist/file.cc`). `magic_to_version` maps the
  superblock's 4-byte magic to a cluster version. It fails a guarantee on a
  wrong `RDm` prefix and reports a user error for a magic that is too old or too
  new. The superblock is a packed record: magic, root block id, stat block id.
  It is initialised, version-stamped and read and written field by field.
  `read_many_bin` strips the caller's prefix from the keys it gets back.
  `write_bin` adds a Delete or a Put to the transaction's write batch.
- **Table viewer skeleton** (`admin/static/js/tableview.js`). `StaticRowSource`
  makes windows of row ids by arithmetic. `TableViewer` decides in `redraw`
  which rows to request, and `supplyRows` appends rendered rows.

Files:

- `wrappers.dfy`: `Option` and `Result`.
- `bytes.dfy`: bytes, and unsigned little-endian integers of n bytes with their
  round trip.
- `metainfo.dfy`: the metainfo encoder, the iterator class and the drain loop.
  These are proved against the specification functions `EncodeAll`, `RecordAt`
  and `Parse`.
- `block_id.dfy`: the decimal form of the secondary-index block id.
- `persist_file.dfy`: the version magic, the superblock as an `array<byte>`,
  `read_many_bin`, and `write_bin` over a write batch.
- `tableview.dfy`: the row source, the viewer class and a first-load scenario.

Host byte order is modelled as little-endian. This applies to the metainfo
length fields, written through a `uint32_t` union, and to the block ids of the
packed superblock. `sz_t` is taken to be the same 4-byte unsigned integer that
the encoder writes. The iterator's `is_end()` is taken to be `pos == end`.
`NULL_BLOCK_ID` is taken to be the all-ones 64-bit block id. The header that
declares these is not part of this model.

In `redraw`, the code computes `rowsBoundingRect` and `scrollerBoundingRect` but
reads `innerBoundingRect` and `outerBoundingRect`, and it calls a bare
`rowSource`. The corrected model reads the rows rectangle as the inner one and
the scroller rectangle as the outer one. Its requests carry no key, because the
code passes none. The code as written is kept beside it, under "Findings".

## Model

| member | source | states |
|---|---|---|
| Bytes.FromLEOfLE | src/btree/reql_specific.cc:221-233 | reading back an n-byte little-endian field gives the value written |
| Bytes.LEOfFromLE | src/btree/reql_specific.cc:135 | every n-byte field is the encoding of the value read from it |
| Metainfo.EncodeRecord | src/btree/reql_specific.cc:228-237 | one record is 8 bytes longer than its key and value together |
| Metainfo.EncodeAll | src/btree/reql_specific.cc:222-238 | the buffer's length is the sum over pairs of 8 + key length + value length |
| Metainfo.Zip | src/btree/reql_specific.cc:193-197 | the list of pairs is as long as the list of keys |
| Metainfo.ZipAt | src/btree/reql_specific.cc:193-197 | pair i is (keys[i], values[i]) |
| Metainfo.RecordAt | src/btree/reql_specific.cc:126-168 | a record found at p ends within the buffer and its declared lengths fit 32 bits |
| Metainfo.AdvanceFrom | src/btree/reql_specific.cc:126-168 | the end state at end, with under 4 bytes left for the key's length, with a declared key longer than the bytes left, with under 4 bytes left for the value's length, or with a declared value longer than the bytes left; when every check passes, pos = p, the sizes are the two lengths read, the pointers follow each length field, and next_pos = p + 8 + key size + value size, at most end |
| Metainfo.MetainfoIterator.constructor | src/btree/reql_specific.cc:193 | the new iterator has advanced to the first record, and its remaining pairs are Parse of the whole buffer |
| Metainfo.MetainfoIterator.Advance | src/btree/reql_specific.cc:126-168 | the fields become AdvanceFrom(buffer, p), including the end state on every failed check |
| Metainfo.MetainfoIterator.Next | src/btree/reql_specific.cc:170-174 | at end nothing changes; otherwise pos strictly grows and the remaining pairs lose exactly their head |
| Metainfo.MetainfoIterator.Key | src/btree/reql_specific.cc:194 | the key returned is the key of the current head pair |
| Metainfo.MetainfoIterator.Value | src/btree/reql_specific.cc:195 | the value returned is the value of the current head pair |
| Metainfo.GetSuperblockMetainfo | src/btree/reql_specific.cc:193-197 | the output list is the input list followed by exactly the pairs the buffer parses to, in order |
| Metainfo.SetSuperblockMetainfo | src/btree/reql_specific.cc:209-238 | with equal list lengths and sizes below UINT32_MAX, the buffer is the records in order, of summed length, and parses back to (keys[i], values[i]) |
| Metainfo.SetSuperblockMetainfoPair | src/btree/reql_specific.cc:200-207 | the single-pair form writes one record, which parses back to that one pair |
| Metainfo.EncodeAllSnoc | src/btree/reql_specific.cc:215-238 | appending a pair to the lists appends its record to the buffer |
| Metainfo.HeadRecordOfEncoded | src/btree/reql_specific.cc:126-160 | an encoded record followed by anything parses as that record's key and value |
| Metainfo.HeadRecordIsEncoded | src/btree/reql_specific.cc:126-160 | a record the parser accepts is exactly the encoding of the pair it yields |
| Metainfo.ParseRecordThen | src/btree/reql_specific.cc:170-174 | parsing a record then a tail yields its pair, then the tail's pairs |
| Metainfo.ParseEncodedThen | src/btree/reql_specific.cc:193-197 | parsing encoded pairs then a tail yields the pairs in order, then the tail's pairs |
| Metainfo.MetainfoRoundTrip | src/btree/reql_specific.cc:209-238 | iterating the buffer built from keys and values yields exactly (keys[i], values[i]) in index order |
| Metainfo.TrailingFragmentDropped | src/btree/reql_specific.cc:131-134 | a trailing fragment that is not a whole record is dropped and every record before it is returned |
| Metainfo.ShortFragmentIsNotRecord | src/btree/reql_specific.cc:131-134 | fewer than 8 bytes never hold a record |
| Metainfo.ParseDecomposes | src/btree/reql_specific.cc:126-174 | every buffer is the encoding of some pairs followed by a non-record fragment, and the walk yields exactly those pairs |
| SindexBlockId.SindexBlockIdValue | src/btree/reql_specific.cc:36-39 | the value written is a non-empty digit string whose decimal value is the id, with no leading zero unless it is "0" |
| SindexBlockId.GetRocksSindexBlockId | src/btree/reql_specific.cc:41-48 | the value is accepted iff it is a non-empty digit string below 2^64, the id returned is its decimal value, and otherwise the guarantee fails with "rocks sindex block id invalid" |
| SindexBlockId.RenderDecimal | src/btree/reql_specific.cc:38 | the written value is a non-empty digit string, with no leading zero unless it is "0" |
| SindexBlockId.ParseDecimalStrict | src/btree/reql_specific.cc:44 | an accepted value is a non-empty string of decimal digits |
| SindexBlockId.DecimalValueOfRender | src/btree/reql_specific.cc:36-48 | the decimal value of the written string is the number written |
| SindexBlockId.SindexBlockIdRoundTrip | src/btree/reql_specific.cc:36-48 | reading back a written block id gives that block id |
| SindexBlockId.RenderOfDecimalValue | src/btree/reql_specific.cc:36-48 | a digit string without a leading zero is the rendering of its value |
| SindexBlockId.AcceptedValueIsRendering | src/btree/reql_specific.cc:41-48 | an accepted value without a leading zero is exactly what the writer writes for that id |
| SindexBlockId.RejectedValues | src/btree/reql_specific.cc:44-45 | a value fails the guarantee iff it is empty, holds a non-digit, or is 2^64 or more |
| PersistFile.MagicToVersion | src/clustering/administration/persist/file.cc:54-78 | a guarantee fails iff the magic does not start with 'RDm'; an accepted magic ends in a letter from 'e' to 'l'; every other magic is a user error |
| PersistFile.MagicOfVersionRecognised | src/clustering/administration/persist/file.cc:62-69 | the magic of each version, 'RDm' and its letter from 'e' to 'l', maps to that version |
| PersistFile.RecognisedMagicIsVersionMagic | src/clustering/administration/persist/file.cc:54-78 | a magic that is accepted is exactly the magic of the version it maps to |
| PersistFile.CurrentMagicIsLatest | src/clustering/administration/persist/file.cc:39 | the magic written, 'RDml', maps to v2_4, the latest version |
| PersistFile.VersionFollowsLetter | src/clustering/administration/persist/file.cc:58-69 | among accepted magics, a later letter gives a later version and distinct letters give distinct versions, both ways |
| PersistFile.MagicRejections | src/clustering/administration/persist/file.cc:55-72 | a wrong 'RDm' prefix fails a guarantee, 'd' gives the too-old user error, any other letter outside 'd'..'l' gives the later-version user error |
| PersistFile.SetRootThenGet | src/clustering/administration/persist/file.cc:86-95 | after setting the root block id, getting it returns that id, and the magic, stat block id and rest of the block are unchanged |
| PersistFile.SetStatThenGet | src/clustering/administration/persist/file.cc:96-105 | after setting the stat block id, getting it returns that id, and the magic, root block id and rest of the block are unchanged |
| PersistFile.UpdateVersionKeepsBlocks | src/clustering/administration/persist/file.cc:49-52 | the version update makes the block read as v2_4 and leaves root, stat and the rest unchanged |
| PersistFile.InitialImageFields | src/clustering/administration/persist/file.cc:41-47 | an initialised block reads as v2_4, has null root and stat block ids, and is zero past the superblock fields |
| PersistFile.WriteBytes | src/clustering/administration/persist/file.cc:44-46 | a field write changes exactly the field's bytes |
| PersistFile.ReadLE | src/clustering/administration/persist/file.cc:89 | a field read returns the value of the field's bytes |
| PersistFile.InitMetadataSuperblock | src/clustering/administration/persist/file.cc:41-47 | the first block-size bytes become the initial image, and nothing else changes |
| PersistFile.UpdateMetadataSuperblockVersion | src/clustering/administration/persist/file.cc:49-52 | only the magic is rewritten, to 'RDml' |
| PersistFile.MetadataSuperblock.GetRootBlockId | src/clustering/administration/persist/file.cc:86-90 | returns the root block id field |
| PersistFile.MetadataSuperblock.SetRootBlockId | src/clustering/administration/persist/file.cc:91-95 | overwrites only the root block id field |
| PersistFile.MetadataSuperblock.GetStatBlockId | src/clustering/administration/persist/file.cc:96-100 | returns the stat block id field |
| PersistFile.MetadataSuperblock.SetStatBlockId | src/clustering/administration/persist/file.cc:101-105 | overwrites only the stat block id field |
| PersistFile.ReadManyBin | src/clustering/administration/persist/file.cc:208-227 | each callback gets a suffix with prefix + suffix = key and the entry's value, in returned order; the guarantee fails iff some key lacks the prefix, at the first such key |
| PersistFile.WriteTxn.WriteBin | src/clustering/administration/persist/file.cc:235-251 | appends a Delete of the prefixed key when there is no message, otherwise a Put under that key |
| PersistFile.ReadBin | src/clustering/administration/persist/file.cc:203-206 | a value is found iff the prefixed key is in the store, and it is the value stored there |
| PersistFile.WriteBinThenRead | src/clustering/administration/persist/file.cc:203-206 | once the batch is applied, read_bin of the written key gives the message, or nothing after a delete; other keys read as before |
| TableView.RowsBeforeWindow | admin/static/js/tableview.js:24-30 | at most 10 ascending consecutive rows, exactly ids max(0, key-10)..key-1, all in [0, key), none when key <= 0 |
| TableView.RowsAfterWindow | admin/static/js/tableview.js:33-39 | exactly 10 rows, ids key+1..key+10 ascending |
| TableView.RowsFromStartWindow | admin/static/js/tableview.js:41-47 | exactly 10 rows, ids 0..9 ascending |
| TableView.WindowsAroundKey | admin/static/js/tableview.js:24-39 | neither window holds key; for key >= 10, before ++ [key] ++ after is 21 consecutive ids |
| TableView.StaticRowSource.GetRowsBefore | admin/static/js/tableview.js:24-30 | the loop returns the rows RowsBefore(key) |
| TableView.StaticRowSource.GetRowsAfter | admin/static/js/tableview.js:33-39 | the loop returns the rows RowsAfter(key) |
| TableView.StaticRowSource.GetRowsFromStart | admin/static/js/tableview.js:41-47 | the loop returns the rows RowsFromStart() |
| TableView.TableViewer.constructor | admin/static/js/tableview.js:57-85 | underflow is false, no headers, the element holds only the scroller, the scroller only the holder, no rows rendered |
| TableView.TableViewer.Redraw | admin/static/js/tableview.js:87-111 | with no rows, asks for the start iff not underflow and nothing else; with rows, asks before iff rows-top > scroller-top and after iff rows-bottom < scroller-bottom and not underflow; covering rows ask for nothing |
| TableView.TableViewer.SupplyRows | admin/static/js/tableview.js:117-122 | the supplied rows are appended after the rendered ones, in order, and nothing else changes |
| TableView.TableViewer.Cleanup | admin/static/js/tableview.js:113-115 | delegates to the row source's cancelPendingRequests; with no modifies clause, it changes no state of the viewer or the source |
| TableView.FirstLoad | admin/static/js/tableview.js:57-122 | a fresh viewer asks for the start only, then shows ids 0..9, and does not ask for the start again |
| TableView.TableViewer.RedrawAsWritten | admin/static/js/tableview.js:99-103 | as written, a redraw with rows rendered throws a ReferenceError before issuing any request |
| TableView.AsWrittenFailsAfterFirstLoad | admin/static/js/tableview.js:87-122 | as written, the second redraw after the first load throws |

## Findings

| source | as written | input that shows it | evidently intended | confidence | as-written member | corrected member |
|---|---|---|---|---|---|---|
| admin/static/js/tableview.js:99-109 | `redraw` computes `rowsBoundingRect` and `scrollerBoundingRect`, then reads the undeclared `innerBoundingRect` and `outerBoundingRect`, and calls a bare `rowSource` | any redraw once a row is rendered, e.g. the second redraw after the first page is supplied | compare the rows rectangle (inner) with the scroller rectangle (outer) and call `this.rowSource` | high; not executed | TableView.TableViewer.RedrawAsWritten, TableView.AsWrittenFailsAfterFirstLoad | TableView.TableViewer.Redraw, TableView.FirstLoad |

## Left out

- RocksDB I/O is not modelled. This covers `put`, `read`, `try_read`, `read_all_prefixed`, `WriteBatch` and committing a batch. The value read or written is a parameter or a result. A committed batch is an abstract map (`ApplyBatch`).
- The store key of the metainfo and of the sindex block id is not modelled. `table_metadata_prefix` and `table_sindex_block_id_key` are not part of this model.
- The metainfo version-key check in `get_superblock_metainfo` is left out: it only crashes on an unknown version string read from the store.
- Locks, semaphores and signals are left out: `wait_lazily_ordered`, superblock acquisition and interruptors.
- The `rassert` checks in `advance` are left out. They are debug-build assertions, so the model of `advance` follows a release build, where the check after each of them ends the walk.
- Metainfo.SetSuperblockMetainfo: the encoder's `rassert` checks (equal list lengths, each size below UINT32_MAX) are kept as preconditions. A key or value of exactly 0xFFFFFFFF bytes, which a release build still encodes, is therefore outside the model.
- PersistFile.MagicToVersion: the three prefix guarantees carry no message in the source, so their failure carries the empty message.
- `key_to_unescaped_str` is taken as the identity on the key's characters.
- `send_write_message` is left out. The serialised message bytes are a parameter of `WriteBin`, and its guarantee on the result is not modelled.
- The read streams and callbacks of `read_many_bin` are left out. Each callback is recorded as an entry of the returned list.
- The blob, value-sizer and deleter classes in file.cc are left out. So are the `metadata_file_t` constructors, because they set up the store.
- `get_rocks_sindex_block_id`: `strtou64_strict` is not part of this model. It is modelled as accepting a non-empty all-digit string whose value is below 2^64.
- SindexBlockId.AcceptedValueIsRendering: states uniqueness only for values without a leading zero, because the strict parse may accept leading zeros.
- `StaticRowSource` keys are integers. A fractional or undefined key is not modelled. Neither is the promise: each call returns the rows its promise resolves to.
- `TableViewer.Redraw`: the geometry is a pair of reals per rectangle. Browser floating point and layout are left out, and so is `scrollTop`, which is read and never used. The requests carry no key.
- `TableViewer.Cleanup` and `StaticRowSource.CancelPendingRequests` carry no contract. The stub has nothing to cancel, and neither method changes any state.
- `makeDOMRow` and the `console.log` calls are left out. A rendered row is modelled by the row it shows, not by its `<pre>` JSON text.
- The features named in the file's header comment are left out, because the file does not implement them: sortable, reorderable and resizable columns, and dynamic columns.

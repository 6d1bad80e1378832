# Row set and type-metadata bridge of a CQL driver boundary

This project models the core of a C-callable boundary layer around a CQL
cluster driver: the result stream (`RowSet`) that a foreign host iterates one
row at a time, and the walker over the recursive column-type tree that the host
uses to learn each column's type. The model covers `rust/src/row_set.rs`:

- the one-byte type-code table (`column_type_to_code`). The source only
  encodes. The model adds an inverse of the native part of the table
  (`NativeOfCode`), used only to prove that the table is injective;
- the type-tree accessors (`row_set_type_info_get_*`). Each one panics when the
  node has the wrong shape or the index is out of range. In the model these
  panic conditions are the accessors' `requires` clauses;
- `RowSet::empty`, the column count, the metadata loop
  (`row_set_fill_columns_metadata`) and the row step (`row_set_next_row`).

Modules:

- `Ffi` (`ffi.dfy`): `Option`, driver errors, foreign exceptions and the
  `FfiException` slot.
- `ColumnTypes` (`column_types.dfy`): the type tree, the code table, depth and
  children.
- `TypeInfo` (`type_info.dfy`): handles and accessors.
- `RowSets` (`row_set.dfy`): the stream operations.
- `RowStream` (`row_stream.dfy`): properties over several calls, plus two
  worked examples.

Modelling choices:

- The pager is abstract. It holds the column specs and the sequence of
  outcomes that its successive `next_column_iterator` calls produce. Each
  outcome is either a fetched row (the column iterator's items, each an error,
  a null or a byte string) or a fetch error.
- Each `next_row` call on a stream with a pager consumes one outcome. An empty
  sequence is the exhausted pager, which keeps reporting "no more rows".
- What the driver's pager does after a fetch error is simply whatever the next
  outcome in the sequence is. The model asserts no retry semantics.
- The caller's callbacks (metadata setter, value deserializer) are pure
  oracles. Each operation returns the calls it made, in order, so the
  contracts can talk about which calls happened.
- The foreign exception constructors are opaque. An exception is represented
  by what it was built from:
  - a message the core formats itself (`NoPagerForMetadata`,
    `FewerColumns(k, n)`);
  - a driver error;
  - an exception a callback returned, which is passed back unchanged.
- A type handle is either null or the node it borrows. The walker never copies
  nodes.
- The driver's enums are non-exhaustive. The source's `_ => 0x00` arms are
  modelled as `OtherNative`, `OtherCollection` and `OtherColumnType`.

## Model

| member | source | states |
|---|---|---|
| ColumnTypes.ColumnTypeToCode | rust/src/row_set.rs:463-499 | The code is 0x20 or above exactly for known collections, vectors, UDTs and tuples. It is 0x00 exactly for unknown native types, unknown collection kinds and unknown type kinds. |
| ColumnTypes.CodesAreDocumented | rust/src/row_set.rs:463-499 | Every reported code is in {0x00..0x15 except 0x0D, 0x20, 0x21, 0x22, 0x30, 0x31}. 0x0D is never reported. |
| ColumnTypes.NativeCodesFollowTable | rust/src/row_set.rs:465-485 | Each of the 20 supported native types gets exactly its code in the code table, Ascii=0x01 through Duration=0x15. |
| ColumnTypes.NativeCodeRoundTrip | rust/src/row_set.rs:465-486 | The model's inverse of the native table (`NativeOfCode`) maps each supported native type's code back to that type, so no two supported native types share a code. Unsupported native types share 0x00, which decodes to nothing. |
| ColumnTypes.CodeNativeRoundTrip | rust/src/row_set.rs:465-486 | A code that the model's inverse (`NativeOfCode`) maps to a native type is that type's code, and the pair is a row of the code table. |
| ColumnTypes.ChildrenAreShallower | rust/src/row_set.rs:286-460 | Every child node is strictly shallower than its parent. So the tree is acyclic, and any walk that only descends terminates. |
| TypeInfo.GetCode | rust/src/row_set.rs:263-270 | A non-null handle's code is its node's code. It is 0x20 or above exactly for composite nodes. A null handle panics. |
| TypeInfo.GetListChild | rust/src/row_set.rs:286-296 | Panics unless the node is a list collection. Returns a non-null handle to the node's only child, which is shallower. |
| TypeInfo.GetSetChild | rust/src/row_set.rs:312-322 | Panics unless the node is a set collection. Returns a non-null handle to the node's only child, which is shallower. |
| TypeInfo.GetMapChildren | rust/src/row_set.rs:339-353 | Panics unless the node is a map collection. Returns non-null handles to its key and value, in that order, both shallower. |
| TypeInfo.GetTupleFieldCount | rust/src/row_set.rs:364-367 | Panics unless the node is a tuple. Returns its number of children. |
| TypeInfo.GetTupleField | rust/src/row_set.rs:384-395 | Panics unless the node is a tuple and the index is below the field count. Returns a handle to child `index`, which is shallower. |
| TypeInfo.GetUdtName | rust/src/row_set.rs:408-416 | Panics unless the node is a user-defined type. Returns the definition's name. |
| TypeInfo.GetUdtFieldCount | rust/src/row_set.rs:426-429 | Panics unless the node is a user-defined type. Returns its number of fields. |
| TypeInfo.GetUdtField | rust/src/row_set.rs:445-460 | Panics unless the node is a UDT and the index is below the field count. Returns the field's name and a handle to child `index`, which is shallower. |
| TypeInfo.UdtFieldsFrom | rust/src/row_set.rs:445-460 | Reading UDT fields through the accessor at indices 0 up to the count yields the definition's (name, type) pairs in declaration order. |
| TypeInfo.TupleFieldsFrom | rust/src/row_set.rs:384-395 | Reading tuple fields through the accessor at indices 0 up to the count yields the tuple's fields in order. |
| TypeInfo.CodeSelectsAccessor | rust/src/row_set.rs:463-499 | Code 0x21, 0x22, 0x30 and 0x31 hold exactly when the map, set, UDT and tuple accessors are allowed. Code 0x20 holds exactly for list nodes and vector nodes. |
| TypeInfo.VectorLooksLikeList | rust/src/row_set.rs:494 | A vector node reports the list code 0x20, yet the list accessor refuses it. |
| RowSets.Empty | rust/src/row_set.rs:32-36 | The empty stream has no pager. |
| RowSets.ColumnsCount | rust/src/row_set.rs:57-59 | The count is the pager's number of column specs, or 0 without a pager. |
| RowSets.ColumnMetadata | rust/src/row_set.rs:97-127 | The setter gets the column's index, name, keyspace, table and code. The handle is non-null exactly for composite types and then borrows the column's own type node. The frozen byte is 0 or 1, and is 1 exactly for a frozen collection or UDT. |
| RowSets.FillFromVisitsInOrder | rust/src/row_set.rs:97-133 | The loop's calls are the metadata calls for columns from, from+1, ... in spec order, and there are no more calls than columns. |
| RowSets.FillFromOkIffAllAccepted | rust/src/row_set.rs:128-134 | The loop returns ok exactly when it called the setter for every remaining column and no call returned an exception. |
| RowSets.FillFromReturnsFirstException | rust/src/row_set.rs:128-131 | On an exception, the returned value is the answer to the last call. Every earlier call was accepted, so no later column was visited. |
| RowSets.FillColumnsMetadata | rust/src/row_set.rs:80-135 | Without a pager: the "no pager" exception and no setter call. With a pager: calls for indices 0,1,... in spec order. Ok exactly when all n columns were visited and all were accepted. Otherwise, the first exception, returned unchanged. |
| RowSets.PresentCallsSkipNulls | rust/src/row_set.rs:226-239 | Every deserializer call is for a present value at a lower index, with that value's bytes. No null index is ever called. |
| RowSets.PresentCallsCoverValues | rust/src/row_set.rs:232-239 | Every present value among the handled columns gets its call. |
| RowSets.PresentCallsInColumnOrder | rust/src/row_set.rs:208-244 | Calls go in strictly increasing column order, so each column is deserialized at most once. |
| RowSets.WalkEndsAtFirstUnhandled | rust/src/row_set.rs:208-246 | The column loop completes exactly when all n declared columns are in the row, are not errors, and are accepted by the deserializer. Otherwise it aborts with an exception at the first column that fails those conditions. That exception is "fewer columns (k of n)" for a short row, the converted error for a column error, or the deserializer's own exception. |
| RowSets.WalkCallsPresentValues | rust/src/row_set.rs:208-246 | A completed loop made exactly the calls for the present values. An aborted loop made those calls before the failing column, plus the rejected call if there was one. |
| RowSets.Advance | rust/src/row_set.rs:196 | One `next_column_iterator` call consumes exactly the first pending outcome: the pending sequence shrinks by that one outcome, and the column specs, and so the column count, stay as they were. |
| RowSets.NextRow | rust/src/row_set.rs:167-260 | Without a pager, or with an exhausted pager: no row, ok, no call, stream unchanged. A fetch error: that error, no row, no call. A fetched row: has_row exactly when every declared column is handled, with the calls for the present values. Otherwise an abort at the first failing column. A reported row always comes with ok, and the column count never changes. |
| RowStream.Drive | rust/src/row_set.rs:167-260 | k successive `next_row` calls produce k outcomes. |
| RowStream.EmptyStreamNeverYieldsRows | rust/src/row_set.rs:178-183 | A stream without pager has 0 columns. Any number of `next_row` calls each report no row, ok and no call, and leave the stream unchanged. |
| RowStream.ExhaustionIsTerminal | rust/src/row_set.rs:196-199 | Once `next_row` reports no row and no exception, every later call reports the same. |
| RowStream.AbortPointIsUnique | rust/src/row_set.rs:208-243 | A row aborts at one column only, with one exception. |
| RowStream.ShortRowReportsFewerColumns | rust/src/row_set.rs:208-218 | Take a row of k < n items that are all handled. It fails with "fewer columns (k of n)" and no row, after deserializing exactly its present values below k. |
| RowStream.FirstRejectionAbortsRow | rust/src/row_set.rs:232-243 | The first deserializer exception is returned unchanged, with no row. The calls are those before its column plus the rejected call, and none after. |
| RowStream.EveryRowDeliveredThenNoMore | rust/src/row_set.rs:196-254 | On a pager of m rows that all deserialize, successive calls report a row exactly m times, each with its present-value calls. After that they report no row, ok and no call forever. |
| RowStream.DeliveredRowAdvances | rust/src/row_set.rs:196-254 | When every pending row deserializes, one `next_row` call delivers the first row with ok and its present-value calls, and consumes it. What remains is again a stream whose rows all deserialize. |
| RowStream.EmptyPagerStaysEmpty | rust/src/row_set.rs:196-199 | An exhausted pager reports no row, ok and no call on every call. |
| RowStream.FillVisitsEveryColumn | rust/src/row_set.rs:97-134 | If the setter accepts every call, the result is ok, with one call per column at indices 0..n-1 in spec order. |
| RowStream.MetadataHandleFollowsCode | rust/src/row_set.rs:102-108 | Each column's handle is non-null exactly when its code is at least 0x20. A non-null handle borrows the column's own type node. |
| RowStream.FrozenUnknownCollection | rust/src/row_set.rs:104-115 | A frozen collection of an unknown kind is reported frozen, with code 0x00 and a null handle. |
| RowStream.ExampleRowCalls | rust/src/row_set.rs:226-239 | In the rows ("a", 1, null) and ("b", 2, 5), the null is skipped and the present values are called in order. |
| RowStream.ThreeColumnExample | rust/src/row_set.rs:196-254 | The 3-column example rows give: a row with calls for 0 and 1 only, then a row with calls for 0, 1 and 2, then no row and ok. |
| RowStream.UdtExample | rust/src/row_set.rs:426-460 | A UDT with fields x: int and y: text has code 0x30 and two fields. They read back in order as "x" and "y", through non-null handles with codes 0x09 and 0x0A. |

## Left out

- `row_set_free` and all handle ownership plumbing (`ArcFFI`, `RefFFI`, `FFIStr`, `FFIByteSlice`, the `unsafe` writes): ownership and address plumbing without behaviour at this level. A handle is the node it borrows, or null.
- The null checks on the accessors' out-parameters: address plumbing. The null type handle check is kept, as the `requires` that the handle is non-null.
- The `Mutex` around the pager: each call is treated as atomic. So the property that concurrent `next_row` callers together receive the same multiset of rows as sequential callers is not modelled.
- `BridgedFuture::block_on` and the async body: the fetch is a step of the abstract pager.
- The network paging inside the driver's pager: it is abstract. So are retry semantics after a fetch error. Nothing is claimed beyond "the next outcome in the sequence".
- The `_new_page_began` flag and schema changes between pages: the column specs are fixed for the whole stream.
- The exact text of the messages the core formats: they are modelled as structured values (`NoPagerForMetadata`, `FewerColumns(k, n)`), not as strings.
- The exception constructor table and the error-type conversion (`FfiException::from_error`): external, so they are opaque values.
- The constant `columns_ptr`, `values_ptr` and `serializer_ptr` arguments of the callbacks: they are not recorded in the call traces. A callback oracle sees only the column index and the bytes (or the metadata arguments), and one oracle answers every call of a run of `next_row` calls.
- Decoding of column bytes: it happens in the caller's deserializer, so it is an oracle.
- `usize` width of counts and indices: modelled as unbounded naturals, since a column count cannot approach the limit.
- `rust/src/session.rs` (connect, prepare, query, execute, `use_keyspace`): asynchronous scheduling plumbing over the driver session. The only link to this core is that a successful `use_keyspace` yields `RowSet::empty()` (rust/src/session.rs:172), which `RowSets.Empty` models.
- `rust/src/lib.rs`, `rust/src/cs_configuration.rs`, `rust/src/cs_load_balancing_policy.rs`: FFI type declarations without behaviour.
- Tracing and logging.
- RowSets.Empty: its contract only says the stream has no pager. What that means for callers is stated by `RowStream.EmptyStreamNeverYieldsRows`.
- TypeInfo.GetUdtName: its contract can only say which stored name it returns. There is nothing further to promise about an opaque name.

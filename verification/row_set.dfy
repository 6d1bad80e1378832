/** The result stream handed to the foreign caller (rust/src/row_set.rs,
    `RowSet`): an optional pager, the column count, the metadata callback
    loop and the one-row-at-a-time `next_row` step.

    The pager is abstract: its column specs and the sequence of outcomes its
    successive `next_column_iterator` calls produce. An empty sequence is the
    exhausted pager, which keeps reporting "no more rows". The caller's
    callbacks are pure oracles, and every call made to them is recorded in a
    trace, in call order. */
module RowSets {
  import opened Ffi
  import opened ColumnTypes
  import opened TypeInfo

  /** Static metadata of one column. */
  datatype ColumnSpec = ColumnSpec(name: string, keyspace: string, table: string, typ: ColumnType)

  /** A raw column value: a CQL null or the value's bytes in the frame. */
  datatype RawValue = NullValue | Bytes(slice: seq<u8>)

  /** What the row's column iterator produces for one column: a raw value,
      or the detail of a column error (converted as `ColumnError`). */
  datatype ColumnItem = ColumnOk(raw: RawValue) | ColumnErr(detail: nat)

  /** What one `next_column_iterator` call produces when there is a row to
      report: the row's column iterator contents, or the detail of a fetch
      error (converted as `NextRowError`). */
  datatype FetchOutcome = RowFetched(columns: seq<ColumnItem>) | FetchFailed(detail: nat)

  /** The pager: column specs fixed for the whole stream, and the outcomes of
      its remaining `next_column_iterator` calls (empty once exhausted). */
  datatype Pager = Pager(columnSpecs: seq<ColumnSpec>, pending: seq<FetchOutcome>)

  /** A result stream; a stream without pager is permanently empty. */
  datatype RowSet = RowSet(pager: Option<Pager>)

  /** One call of the metadata setter, with its arguments. */
  datatype MetadataCall = MetadataCall(
    index: nat, name: string, keyspace: string, table: string,
    typeCode: u8, typeInfo: Handle, isFrozen: u8)

  /** One call of the value deserializer: the column index and the bytes. */
  datatype DeserializeCall = DeserializeCall(index: nat, bytes: seq<u8>)

  /** The caller's callbacks, as oracles answering each call. */
  type MetadataSetter = MetadataCall -> FfiException
  type Deserializer = DeserializeCall -> FfiException

  /** `RowSet::empty`: the stream a statement without rows produces. */
  function Empty(): (rs: RowSet)
    ensures rs.pager.None?
  {
    RowSet(None)
  }

  /** `row_set_get_columns_count` */
  function ColumnsCount(rs: RowSet): (n: nat)
    ensures rs.pager.None? ==> n == 0
    ensures rs.pager.Some? ==> n == |rs.pager.value.columnSpecs|
  {
    match rs.pager
    case None => 0
    case Some(p) => |p.columnSpecs|
  }

  // ---------------------------------------------------------------------
  // Metadata

  /** The arguments the metadata setter receives for column `index`. */
  function ColumnMetadata(index: nat, spec: ColumnSpec): (m: MetadataCall)
    ensures m.index == index
    ensures m.name == spec.name && m.keyspace == spec.keyspace && m.table == spec.table
    ensures m.typeCode == ColumnTypeToCode(spec.typ)
    ensures m.typeInfo.Borrowed? <==> IsComposite(spec.typ)
    ensures m.typeInfo.Borrowed? ==> m.typeInfo.node == spec.typ
    ensures m.isFrozen == 1 <==> IsFrozen(spec.typ)
    ensures m.isFrozen <= 1
  {
    var code := ColumnTypeToCode(spec.typ);
    var handle := if code >= CodeList then Borrowed(spec.typ) else NullHandle;
    MetadataCall(index, spec.name, spec.keyspace, spec.table, code, handle,
                 if IsFrozen(spec.typ) then 1 else 0)
  }

  /** The outcome of the metadata loop: what is returned, and the setter
      calls made, in order. */
  datatype MetadataOutcome = MetadataOutcome(result: FfiException, calls: seq<MetadataCall>)

  /** The metadata loop from column `from` on. It stops at the first call
      whose answer carries an exception and returns that answer. */
  function FillFrom(specs: seq<ColumnSpec>, from: nat, setter: MetadataSetter): (r: MetadataOutcome)
    requires from <= |specs|
    decreases |specs| - from
  {
    if from == |specs| then MetadataOutcome(Ok, [])
    else
      var call := ColumnMetadata(from, specs[from]);
      var answer := setter(call);
      if answer.HasException() then MetadataOutcome(answer, [call])
      else
        var rest := FillFrom(specs, from + 1, setter);
        MetadataOutcome(rest.result, [call] + rest.calls)
  }

  /** `calls` are the metadata calls for columns `from`, `from + 1`, ...,
      in that order. */
  predicate CallsFollowSpecs(specs: seq<ColumnSpec>, from: nat, calls: seq<MetadataCall>)
    requires from <= |specs|
  {
    && |calls| <= |specs| - from
    && forall k | 0 <= k < |calls| :: calls[k] == ColumnMetadata(from + k, specs[from + k])
  }

  /** The setter answered every one of `calls` without an exception. */
  predicate AllAccepted(setter: MetadataSetter, calls: seq<MetadataCall>) {
    forall k | 0 <= k < |calls| :: !setter(calls[k]).HasException()
  }

  /** The metadata loop visits columns `from`, `from + 1`, ... in order. */
  lemma {:induction false} FillFromVisitsInOrder(specs: seq<ColumnSpec>, from: nat, setter: MetadataSetter)
    requires from <= |specs|
    ensures CallsFollowSpecs(specs, from, FillFrom(specs, from, setter).calls)
    decreases |specs| - from
  {
    var r := FillFrom(specs, from, setter);
    if from < |specs| && !setter(ColumnMetadata(from, specs[from])).HasException() {
      var rest := FillFrom(specs, from + 1, setter);
      FillFromVisitsInOrder(specs, from + 1, setter);
      assert r.calls == [ColumnMetadata(from, specs[from])] + rest.calls;
      assert forall k | 1 <= k < |r.calls| :: r.calls[k] == rest.calls[k - 1];
    }
  }

  /** The metadata loop returns no exception exactly when it visited every
      remaining column and the setter accepted every call. */
  lemma {:induction false} FillFromOkIffAllAccepted(specs: seq<ColumnSpec>, from: nat, setter: MetadataSetter)
    requires from <= |specs|
    ensures var r := FillFrom(specs, from, setter);
      r.result.Ok? <==> |r.calls| == |specs| - from && AllAccepted(setter, r.calls)
    decreases |specs| - from
  {
    var r := FillFrom(specs, from, setter);
    if from < |specs| {
      var call := ColumnMetadata(from, specs[from]);
      if setter(call).HasException() {
        assert r.calls == [call] && r.calls[0] == call;
        assert !AllAccepted(setter, r.calls);
      } else {
        var rest := FillFrom(specs, from + 1, setter);
        FillFromOkIffAllAccepted(specs, from + 1, setter);
        assert r.calls == [call] + rest.calls;
        assert AllAccepted(setter, r.calls) <==> AllAccepted(setter, rest.calls) by {
          assert forall k | 1 <= k < |r.calls| :: r.calls[k] == rest.calls[k - 1];
          assert forall k | 0 <= k < |rest.calls| :: rest.calls[k] == r.calls[k + 1];
        }
      }
    }
  }

  /** When the metadata loop returns an exception, it is the answer to its
      last call, and the setter accepted every call before that one: the
      loop stops at the first exception. */
  lemma {:induction false} FillFromReturnsFirstException(specs: seq<ColumnSpec>, from: nat, setter: MetadataSetter)
    requires from <= |specs|
    ensures var r := FillFrom(specs, from, setter);
      r.result.Raised? ==>
        && |r.calls| > 0
        && AllAccepted(setter, r.calls[..|r.calls| - 1])
        && r.result == setter(r.calls[|r.calls| - 1])
    decreases |specs| - from
  {
    var r := FillFrom(specs, from, setter);
    if from < |specs| {
      var call := ColumnMetadata(from, specs[from]);
      if setter(call).HasException() {
        assert r.calls == [call];
      } else {
        var rest := FillFrom(specs, from + 1, setter);
        FillFromReturnsFirstException(specs, from + 1, setter);
        assert r.calls == [call] + rest.calls;
        if r.result.Raised? {
          var front := rest.calls[..|rest.calls| - 1];
          assert r.calls[..|r.calls| - 1] == [call] + front;
          assert forall k | 0 <= k < |front| :: ([call] + front)[k + 1] == front[k];
        }
      }
    }
  }

  /** `row_set_fill_columns_metadata`: without a pager it reports the
      "no pager" exception and calls nothing; otherwise it calls the setter
      for columns 0, 1, ... in spec order, and the first exception a call
      returns is returned unchanged, with no later column visited. */
  function FillColumnsMetadata(rs: RowSet, setter: MetadataSetter): (r: MetadataOutcome)
    ensures rs.pager.None? ==> r.result == Raised(RustException(NoPagerForMetadata)) && r.calls == []
    ensures rs.pager.Some? ==> CallsFollowSpecs(rs.pager.value.columnSpecs, 0, r.calls)
    ensures r.result.Ok? <==> rs.pager.Some? && |r.calls| == ColumnsCount(rs) && AllAccepted(setter, r.calls)
    ensures rs.pager.Some? && r.result.Raised? ==>
      && |r.calls| > 0
      && AllAccepted(setter, r.calls[..|r.calls| - 1])
      && r.result == setter(r.calls[|r.calls| - 1])
  {
    match rs.pager
    case None => MetadataOutcome(Raised(RustException(NoPagerForMetadata)), [])
    case Some(p) =>
      FillFromVisitsInOrder(p.columnSpecs, 0, setter);
      FillFromOkIffAllAccepted(p.columnSpecs, 0, setter);
      FillFromReturnsFirstException(p.columnSpecs, 0, setter);
      FillFrom(p.columnSpecs, 0, setter)
  }

  // ---------------------------------------------------------------------
  // Rows

  /** The deserializer call column `k` asks for: one for a present value,
      none for a null or a column error. */
  function CallAt(columns: seq<ColumnItem>, k: nat): seq<DeserializeCall>
    requires k < |columns|
  {
    match columns[k]
    case ColumnOk(Bytes(b)) => [DeserializeCall(k, b)]
    case _ => []
  }

  /** The deserializer calls for the present values among columns 0..j-1,
      in index order. */
  function PresentCalls(columns: seq<ColumnItem>, j: nat): seq<DeserializeCall>
    requires j <= |columns|
  {
    if j == 0 then [] else PresentCalls(columns, j - 1) + CallAt(columns, j - 1)
  }

  /** Every call for columns 0..j-1 is for a present value, with that
      value's bytes; so no null is ever deserialized. */
  lemma {:induction false} PresentCallsSkipNulls(columns: seq<ColumnItem>, j: nat)
    requires j <= |columns|
    ensures forall c | c in PresentCalls(columns, j) :: c.index < j && columns[c.index] == ColumnOk(Bytes(c.bytes))
    ensures forall k | 0 <= k < j && columns[k] == ColumnOk(NullValue) ::
      forall c | c in PresentCalls(columns, j) :: c.index != k
  {
    if j > 0 {
      PresentCallsSkipNulls(columns, j - 1);
      assert PresentCalls(columns, j) == PresentCalls(columns, j - 1) + CallAt(columns, j - 1);
    }
  }

  /** Every present value among columns 0..j-1 gets its call. */
  lemma {:induction false} PresentCallsCoverValues(columns: seq<ColumnItem>, j: nat)
    requires j <= |columns|
    ensures forall k | 0 <= k < j && columns[k].ColumnOk? && columns[k].raw.Bytes? ::
      DeserializeCall(k, columns[k].raw.slice) in PresentCalls(columns, j)
  {
    if j > 0 {
      PresentCallsCoverValues(columns, j - 1);
      assert PresentCalls(columns, j) == PresentCalls(columns, j - 1) + CallAt(columns, j - 1);
    }
  }

  /** Calls go in strictly increasing column order. */
  predicate InColumnOrder(calls: seq<DeserializeCall>) {
    forall a, b | 0 <= a < b < |calls| :: calls[a].index < calls[b].index
  }

  /** The calls go in strictly increasing column order, so each column is
      deserialized at most once. */
  lemma {:induction false} PresentCallsInColumnOrder(columns: seq<ColumnItem>, j: nat)
    requires j <= |columns|
    ensures InColumnOrder(PresentCalls(columns, j))
  {
    if j > 0 {
      PresentCallsInColumnOrder(columns, j - 1);
      PresentCallsSkipNulls(columns, j - 1);
      var prev := PresentCalls(columns, j - 1);
      var calls := PresentCalls(columns, j);
      assert calls == prev + CallAt(columns, j - 1);
      assert forall a | 0 <= a < |prev| :: calls[a] == prev[a] && prev[a] in prev;
      if |calls| > |prev| {
        assert |calls| == |prev| + 1;
        assert calls[|prev|].index == j - 1;
        forall a, b | 0 <= a < b < |calls|
          ensures calls[a].index < calls[b].index
        {
          if b == |prev| {
            assert calls[a] in prev;
          }
        }
      } else {
        assert calls == prev;
      }
    }
  }

  /** The calls a walk that stops at column `j` has made: those for the
      present values before `j`, and the call for column `j` itself when it
      holds a value. */
  function CallsThrough(columns: seq<ColumnItem>, j: nat): seq<DeserializeCall>
    requires j <= |columns|
  {
    if j < |columns| then PresentCalls(columns, j) + CallAt(columns, j) else PresentCalls(columns, j)
  }

  /** Column `k` is handled without aborting the row: it is there, it is
      not an error, and if it is present the deserializer accepts it. */
  predicate Handled(columns: seq<ColumnItem>, k: nat, deserialize: Deserializer) {
    && k < |columns|
    && columns[k].ColumnOk?
    && (columns[k].raw.Bytes? ==> !deserialize(DeserializeCall(k, columns[k].raw.slice)).HasException())
  }

  /** A row is delivered when all `n` declared columns are handled. */
  predicate RowDelivered(columns: seq<ColumnItem>, n: nat, deserialize: Deserializer) {
    n <= |columns| && forall k | 0 <= k < n :: Handled(columns, k, deserialize)
  }

  /** The row aborts at column `j` with `error`: every earlier column was
      handled, and column `j` is missing (the row is short), is an error,
      or is a value the deserializer rejects. */
  ghost predicate AbortsAt(columns: seq<ColumnItem>, n: nat, deserialize: Deserializer, j: nat, error: FfiException) {
    && j < n
    && (forall k | 0 <= k < j :: Handled(columns, k, deserialize))
    && if j >= |columns| then
         error == Raised(RustException(FewerColumns(j, n)))
       else
         match columns[j]
         case ColumnErr(d) => error == Raised(FromDriverError(ColumnError(d)))
         case ColumnOk(NullValue) => false
         case ColumnOk(Bytes(b)) =>
           deserialize(DeserializeCall(j, b)).HasException() && error == deserialize(DeserializeCall(j, b))
  }

  /** How the walk over one fetched row ended. */
  datatype RowWalk =
    | Completed(calls: seq<DeserializeCall>)
    | Aborted(at: nat, error: FfiException, calls: seq<DeserializeCall>)

  /** The loop over the declared columns of a fetched row, from column `i`
      on, with `done` the deserializer calls already made. */
  function WalkColumns(columns: seq<ColumnItem>, n: nat, i: nat, deserialize: Deserializer, done: seq<DeserializeCall>): RowWalk
    requires i <= n
    decreases n - i
  {
    if i == n then Completed(done)
    else if i >= |columns| then Aborted(i, Raised(RustException(FewerColumns(i, n))), done)
    else
      match columns[i]
      case ColumnErr(d) => Aborted(i, Raised(FromDriverError(ColumnError(d))), done)
      case ColumnOk(NullValue) => WalkColumns(columns, n, i + 1, deserialize, done)
      case ColumnOk(Bytes(b)) =>
        var call := DeserializeCall(i, b);
        var answer := deserialize(call);
        if answer.HasException() then Aborted(i, answer, done + [call])
        else WalkColumns(columns, n, i + 1, deserialize, done + [call])
  }

  /** The walk completes exactly when the row is delivered; otherwise it
      aborts at the first column that is not handled, with that column's
      error. */
  lemma {:induction false} WalkEndsAtFirstUnhandled(columns: seq<ColumnItem>, n: nat, i: nat, deserialize: Deserializer, done: seq<DeserializeCall>)
    requires i <= n && i <= |columns|
    requires forall k | 0 <= k < i :: Handled(columns, k, deserialize)
    ensures var w := WalkColumns(columns, n, i, deserialize, done);
      && (w.Completed? <==> RowDelivered(columns, n, deserialize))
      && (w.Aborted? ==> i <= w.at <= |columns| && AbortsAt(columns, n, deserialize, w.at, w.error))
      && (w.Aborted? ==> w.error.HasException())
    decreases n - i
  {
    if i < n && i < |columns| {
      match columns[i]
      case ColumnErr(_) =>
        assert !Handled(columns, i, deserialize);
      case ColumnOk(NullValue) =>
        WalkEndsAtFirstUnhandled(columns, n, i + 1, deserialize, done);
      case ColumnOk(Bytes(b)) =>
        var call := DeserializeCall(i, b);
        if deserialize(call).HasException() {
          assert !Handled(columns, i, deserialize);
        } else {
          WalkEndsAtFirstUnhandled(columns, n, i + 1, deserialize, done + [call]);
        }
    }
  }

  /** The walk's calls are the calls for the present values before the
      column it stopped at, plus the rejected call when a value was
      rejected; a completed walk made exactly the calls for every present
      value among the declared columns. */
  lemma {:induction false} WalkCallsPresentValues(columns: seq<ColumnItem>, n: nat, i: nat, deserialize: Deserializer, done: seq<DeserializeCall>)
    requires i <= n && i <= |columns|
    requires forall k | 0 <= k < i :: Handled(columns, k, deserialize)
    requires done == PresentCalls(columns, i)
    ensures var w := WalkColumns(columns, n, i, deserialize, done);
      && (w.Completed? ==> n <= |columns| && w.calls == PresentCalls(columns, n))
      && (w.Aborted? ==> w.at <= |columns| && w.calls == CallsThrough(columns, w.at))
    decreases n - i
  {
    if i < n && i < |columns| {
      assert PresentCalls(columns, i + 1) == done + CallAt(columns, i);
      match columns[i]
      case ColumnErr(_) =>
      case ColumnOk(NullValue) =>
        WalkCallsPresentValues(columns, n, i + 1, deserialize, done);
      case ColumnOk(Bytes(b)) =>
        var call := DeserializeCall(i, b);
        assert CallAt(columns, i) == [call];
        if !deserialize(call).HasException() {
          WalkCallsPresentValues(columns, n, i + 1, deserialize, done + [call]);
        }
    }
  }

  /** What one `next_row` call produces: the stream afterwards, the
      `has_row` flag, the returned exception slot and the deserializer
      calls made, in order. */
  datatype RowOutcome = RowOutcome(rowSet: RowSet, hasRow: bool, result: FfiException, calls: seq<DeserializeCall>)

  /** The stream after one `next_column_iterator` call: exactly the first
      pending outcome is consumed, and the column specs stay as they were. */
  function Advance(rs: RowSet): (next: RowSet)
    requires rs.pager.Some? && |rs.pager.value.pending| > 0
    ensures next.pager.Some?
    ensures next.pager.value.columnSpecs == rs.pager.value.columnSpecs
    ensures [rs.pager.value.pending[0]] + next.pager.value.pending == rs.pager.value.pending
    ensures |next.pager.value.pending| < |rs.pager.value.pending|
    ensures ColumnsCount(next) == ColumnsCount(rs)
  {
    RowSet(Some(rs.pager.value.(pending := rs.pager.value.pending[1..])))
  }

  /** `row_set_next_row`. */
  function NextRow(rs: RowSet, deserialize: Deserializer): (r: RowOutcome)
    ensures r.hasRow ==> r.result.Ok?
    ensures !r.hasRow && r.result.Ok? ==> r.rowSet == rs && (rs.pager.None? || rs.pager.value.pending == [])
    ensures ColumnsCount(r.rowSet) == ColumnsCount(rs)
    ensures rs.pager.None? ==> r == RowOutcome(rs, false, Ok, [])
    ensures rs.pager.Some? && rs.pager.value.pending == [] ==> r == RowOutcome(rs, false, Ok, [])
    ensures rs.pager.Some? && rs.pager.value.pending != [] ==> r.rowSet == Advance(rs)
    ensures rs.pager.Some? && rs.pager.value.pending != [] && rs.pager.value.pending[0].FetchFailed? ==>
      && !r.hasRow
      && r.result == Raised(FromDriverError(NextRowError(rs.pager.value.pending[0].detail)))
      && r.calls == []
    ensures rs.pager.Some? && rs.pager.value.pending != [] && rs.pager.value.pending[0].RowFetched? ==>
      var columns := rs.pager.value.pending[0].columns;
      var n := ColumnsCount(rs);
      && (r.hasRow <==> RowDelivered(columns, n, deserialize))
      && (r.hasRow ==> r.calls == PresentCalls(columns, n))
      && (!r.hasRow ==> exists j | 0 <= j <= |columns| ::
            AbortsAt(columns, n, deserialize, j, r.result) && r.calls == CallsThrough(columns, j))
  {
    match rs.pager
    case None => RowOutcome(rs, false, Ok, [])
    case Some(p) =>
      if |p.pending| == 0 then RowOutcome(rs, false, Ok, [])
      else
        var next := Advance(rs);
        match p.pending[0]
        case FetchFailed(d) => RowOutcome(next, false, Raised(FromDriverError(NextRowError(d))), [])
        case RowFetched(columns) =>
          WalkEndsAtFirstUnhandled(columns, |p.columnSpecs|, 0, deserialize, []);
          WalkCallsPresentValues(columns, |p.columnSpecs|, 0, deserialize, []);
          match WalkColumns(columns, |p.columnSpecs|, 0, deserialize, [])
          case Completed(calls) => RowOutcome(next, true, Ok, calls)
          case Aborted(_, error, calls) => RowOutcome(next, false, error, calls)
  }
}

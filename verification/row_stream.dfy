/** Properties of a result stream across several calls: the stream-level
    guarantees of `next_row` and `fill_columns_metadata`
    (rust/src/row_set.rs), and two worked examples: a three-column result
    with a null, and a two-field user-defined type. */
module RowStream {
  import opened Ffi
  import opened ColumnTypes
  import opened TypeInfo
  import opened RowSets

  /** The outcomes of `k` successive `next_row` calls on a stream, each call
      seeing the stream the previous one left behind. */
  function Drive(rs: RowSet, deserialize: Deserializer, k: nat): (outs: seq<RowOutcome>)
    ensures |outs| == k
    decreases k
  {
    if k == 0 then []
    else
      var r := NextRow(rs, deserialize);
      [r] + Drive(r.rowSet, deserialize, k - 1)
  }

  // ---------------------------------------------------------------------
  // Streams without rows

  /** A stream without pager has no columns, and every `next_row` call on
      it, however many are made, reports no row and no exception, calls
      nothing and leaves the stream as it was. */
  lemma {:induction false} EmptyStreamNeverYieldsRows(deserialize: Deserializer, k: nat)
    ensures ColumnsCount(Empty()) == 0
    ensures forall t | 0 <= t < k :: Drive(Empty(), deserialize, k)[t] == RowOutcome(Empty(), false, Ok, [])
  {
    if k > 0 {
      EmptyStreamNeverYieldsRows(deserialize, k - 1);
    }
  }

  /** Once a stream reports no row and no exception, every later call
      reports the same. */
  lemma {:induction false} ExhaustionIsTerminal(rs: RowSet, deserialize: Deserializer, k: nat)
    requires !NextRow(rs, deserialize).hasRow && NextRow(rs, deserialize).result.Ok?
    ensures forall t | 0 <= t < k :: Drive(rs, deserialize, k)[t] == NextRow(rs, deserialize)
  {
    if k > 0 {
      ExhaustionIsTerminal(rs, deserialize, k - 1);
    }
  }

  // ---------------------------------------------------------------------
  // Rows

  /** Two abort points of the same row are the same column: the walk
      aborts at the first column it cannot handle. */
  lemma AbortPointIsUnique(columns: seq<ColumnItem>, n: nat, deserialize: Deserializer, j1: nat, e1: FfiException, j2: nat, e2: FfiException)
    requires AbortsAt(columns, n, deserialize, j1, e1)
    requires AbortsAt(columns, n, deserialize, j2, e2)
    ensures j1 == j2 && e1 == e2
  {
    forall j: nat, e | AbortsAt(columns, n, deserialize, j, e)
      ensures !Handled(columns, j, deserialize)
    {
      if j < |columns| {
        match columns[j]
        case ColumnErr(_) =>
        case ColumnOk(NullValue) =>
        case ColumnOk(Bytes(_)) =>
      }
    }
  }

  /** A row whose columns are all handled but which holds only `k` of the
      `n` declared columns fails with "fewer columns (k of n)", reports no
      row, and deserialized exactly the present values among its `k`
      columns. */
  lemma ShortRowReportsFewerColumns(rs: RowSet, deserialize: Deserializer)
    requires rs.pager.Some? && rs.pager.value.pending != [] && rs.pager.value.pending[0].RowFetched?
    requires |rs.pager.value.pending[0].columns| < ColumnsCount(rs)
    requires forall k | 0 <= k < |rs.pager.value.pending[0].columns| ::
      Handled(rs.pager.value.pending[0].columns, k, deserialize)
    ensures var columns := rs.pager.value.pending[0].columns;
      var r := NextRow(rs, deserialize);
      && !r.hasRow
      && r.result == Raised(RustException(FewerColumns(|columns|, ColumnsCount(rs))))
      && r.calls == PresentCalls(columns, |columns|)
  {
    var columns := rs.pager.value.pending[0].columns;
    var n := ColumnsCount(rs);
    var r := NextRow(rs, deserialize);
    assert !RowDelivered(columns, n, deserialize);
    var j :| 0 <= j <= |columns| && AbortsAt(columns, n, deserialize, j, r.result) && r.calls == CallsThrough(columns, j);
    AbortPointIsUnique(columns, n, deserialize, j, r.result, |columns|, Raised(RustException(FewerColumns(|columns|, n))));
  }

  /** When the deserializer rejects the value of column `j` and every
      earlier column was handled, `next_row` returns that rejection
      unchanged, reports no row, and made the calls for the present values
      before `j` plus the rejected call, none after it. */
  lemma FirstRejectionAbortsRow(rs: RowSet, deserialize: Deserializer, j: nat)
    requires rs.pager.Some? && rs.pager.value.pending != [] && rs.pager.value.pending[0].RowFetched?
    requires j < ColumnsCount(rs) && j < |rs.pager.value.pending[0].columns|
    requires rs.pager.value.pending[0].columns[j].ColumnOk? && rs.pager.value.pending[0].columns[j].raw.Bytes?
    requires forall k | 0 <= k < j :: Handled(rs.pager.value.pending[0].columns, k, deserialize)
    requires !Handled(rs.pager.value.pending[0].columns, j, deserialize)
    ensures var columns := rs.pager.value.pending[0].columns;
      var call := DeserializeCall(j, columns[j].raw.slice);
      var r := NextRow(rs, deserialize);
      && !r.hasRow
      && r.result == deserialize(call)
      && r.result.HasException()
      && r.calls == PresentCalls(columns, j) + [call]
  {
    var columns := rs.pager.value.pending[0].columns;
    var n := ColumnsCount(rs);
    var call := DeserializeCall(j, columns[j].raw.slice);
    var r := NextRow(rs, deserialize);
    assert !RowDelivered(columns, n, deserialize);
    var j' :| 0 <= j' <= |columns| && AbortsAt(columns, n, deserialize, j', r.result) && r.calls == CallsThrough(columns, j');
    AbortPointIsUnique(columns, n, deserialize, j', r.result, j, deserialize(call));
    assert CallAt(columns, j) == [call];
  }

  /** Every pending fetch is a row that is delivered in full. */
  predicate AllRowsDelivered(p: Pager, deserialize: Deserializer) {
    forall t | 0 <= t < |p.pending| ::
      p.pending[t].RowFetched? && RowDelivered(p.pending[t].columns, |p.columnSpecs|, deserialize)
  }

  /** On a stream of `m` rows that all deserialize, successive `next_row`
      calls report a row exactly `m` times, each after deserializing
      exactly its present values, and then no row and no exception for
      ever after. */
  lemma {:induction false} EveryRowDeliveredThenNoMore(p: Pager, deserialize: Deserializer, k: nat)
    requires AllRowsDelivered(p, deserialize)
    decreases k
    ensures var outs := Drive(RowSet(Some(p)), deserialize, k);
      && (forall t | 0 <= t < k :: outs[t].hasRow <==> t < |p.pending|)
      && (forall t | 0 <= t < k :: outs[t].result.Ok?)
      && (forall t | 0 <= t < k && t < |p.pending| ::
            outs[t].calls == PresentCalls(p.pending[t].columns, |p.columnSpecs|))
      && (forall t | 0 <= t < k && |p.pending| <= t :: outs[t].calls == [])
  {
    if k > 0 {
      if p.pending == [] {
        EmptyPagerStaysEmpty(p, deserialize, k);
      } else {
        var p' := p.(pending := p.pending[1..]);
        DeliveredRowAdvances(p, deserialize);
        EveryRowDeliveredThenNoMore(p', deserialize, k - 1);
        var outs := Drive(RowSet(Some(p)), deserialize, k);
        var rest := Drive(RowSet(Some(p')), deserialize, k - 1);
        assert outs == [NextRow(RowSet(Some(p)), deserialize)] + rest;
        forall t | 1 <= t < k
          ensures outs[t] == rest[t - 1]
        {
        }
        forall t | 1 <= t < k && t < |p.pending|
          ensures p'.pending[t - 1] == p.pending[t]
        {
        }
      }
    }
  }

  /** One step of a stream whose rows all deserialize: the first row is
      delivered with its present-value calls, and what remains is again a
      stream whose rows all deserialize. */
  lemma DeliveredRowAdvances(p: Pager, deserialize: Deserializer)
    requires AllRowsDelivered(p, deserialize)
    requires p.pending != []
    ensures NextRow(RowSet(Some(p)), deserialize) ==
      RowOutcome(RowSet(Some(p.(pending := p.pending[1..]))), true, Ok,
                 PresentCalls(p.pending[0].columns, |p.columnSpecs|))
    ensures AllRowsDelivered(p.(pending := p.pending[1..]), deserialize)
  {
    var p' := p.(pending := p.pending[1..]);
    var r := NextRow(RowSet(Some(p)), deserialize);
    assert r.rowSet.pager.value.pending == p'.pending;
    assert r.rowSet == RowSet(Some(p'));
    forall t | 0 <= t < |p'.pending|
      ensures p'.pending[t].RowFetched? && RowDelivered(p'.pending[t].columns, |p'.columnSpecs|, deserialize)
    {
      assert p'.pending[t] == p.pending[t + 1];
    }
  }

  /** An exhausted pager reports no row and no exception on every call. */
  lemma {:induction false} EmptyPagerStaysEmpty(p: Pager, deserialize: Deserializer, k: nat)
    requires p.pending == []
    ensures forall t | 0 <= t < k ::
      Drive(RowSet(Some(p)), deserialize, k)[t] == RowOutcome(RowSet(Some(p)), false, Ok, [])
  {
    if k > 0 {
      EmptyPagerStaysEmpty(p, deserialize, k - 1);
    }
  }

  // ---------------------------------------------------------------------
  // Metadata

  /** When the setter accepts every call, the metadata loop reports no
      exception and called the setter once per column, with indices
      0, 1, ..., n - 1 in spec order. */
  lemma FillVisitsEveryColumn(rs: RowSet, setter: MetadataSetter)
    requires rs.pager.Some?
    requires forall m :: !setter(m).HasException()
    ensures var r := FillColumnsMetadata(rs, setter);
      && r.result.Ok?
      && |r.calls| == ColumnsCount(rs)
      && forall k | 0 <= k < |r.calls| :: r.calls[k].index == k && r.calls[k] == ColumnMetadata(k, rs.pager.value.columnSpecs[k])
  {
  }

  /** Each column's type handle is non-null exactly when its code is 0x20
      or above, so every scalar and every unknown type gets a null handle,
      and a non-null handle denotes the column's own type node. */
  lemma MetadataHandleFollowsCode(rs: RowSet, setter: MetadataSetter)
    ensures var r := FillColumnsMetadata(rs, setter);
      forall k | 0 <= k < |r.calls| ::
        && (r.calls[k].typeInfo.Borrowed? <==> r.calls[k].typeCode >= CodeList)
        && (r.calls[k].typeInfo.Borrowed? ==> r.calls[k].typeInfo.node == rs.pager.value.columnSpecs[k].typ)
  {
  }

  /** A frozen collection of a kind the code table does not know is
      reported frozen, yet with code 0x00 and a null handle. */
  lemma FrozenUnknownCollection(index: nat, spec: ColumnSpec)
    requires spec.typ.Collection? && spec.typ.frozen && spec.typ.kind.OtherCollection?
    ensures ColumnMetadata(index, spec).isFrozen == 1
    ensures ColumnMetadata(index, spec).typeCode == CodeUnknown
    ensures ColumnMetadata(index, spec).typeInfo == NullHandle
  {
  }

  // ---------------------------------------------------------------------
  // Worked examples

  const ExampleSpecs: seq<ColumnSpec> := [
    ColumnSpec("name", "ks", "t", Native(Text)),
    ColumnSpec("x", "ks", "t", Native(Int)),
    ColumnSpec("y", "ks", "t", Native(Int))]

  /** The row ("a", 1, null), as frame bytes. */
  const ExampleRow1: seq<ColumnItem> := [ColumnOk(Bytes([0x61])), ColumnOk(Bytes([0, 0, 0, 1])), ColumnOk(NullValue)]

  /** The row ("b", 2, 5), as frame bytes. */
  const ExampleRow2: seq<ColumnItem> := [ColumnOk(Bytes([0x62])), ColumnOk(Bytes([0, 0, 0, 2])), ColumnOk(Bytes([0, 0, 0, 5]))]

  const ExamplePager: Pager := Pager(ExampleSpecs, [RowFetched(ExampleRow1), RowFetched(ExampleRow2)])

  /** The deserializer calls each example row asks for: the null in the
      first row is skipped. */
  lemma ExampleRowCalls()
    ensures PresentCalls(ExampleRow1, 3) == [DeserializeCall(0, [0x61]), DeserializeCall(1, [0, 0, 0, 1])]
    ensures PresentCalls(ExampleRow2, 3) == [DeserializeCall(0, [0x62]), DeserializeCall(1, [0, 0, 0, 2]), DeserializeCall(2, [0, 0, 0, 5])]
  {
    assert PresentCalls(ExampleRow1, 1) == [DeserializeCall(0, [0x61])];
    assert PresentCalls(ExampleRow1, 2) == [DeserializeCall(0, [0x61]), DeserializeCall(1, [0, 0, 0, 1])];
    assert PresentCalls(ExampleRow2, 1) == [DeserializeCall(0, [0x62])];
    assert PresentCalls(ExampleRow2, 2) == [DeserializeCall(0, [0x62]), DeserializeCall(1, [0, 0, 0, 2])];
  }

  /** A three-column result (text, int, int) with rows ("a", 1, null) and
      ("b", 2, 5): the first call reports a row and deserializes columns
      0 and 1 only, the second reports a row and deserializes all three, the
      third reports no row and no exception. */
  lemma ThreeColumnExample(deserialize: Deserializer)
    requires forall c :: deserialize(c) == Ok
    ensures var outs := Drive(RowSet(Some(ExamplePager)), deserialize, 3);
      && outs[0].hasRow && outs[0].calls == [DeserializeCall(0, [0x61]), DeserializeCall(1, [0, 0, 0, 1])]
      && outs[1].hasRow && outs[1].calls == [DeserializeCall(0, [0x62]), DeserializeCall(1, [0, 0, 0, 2]), DeserializeCall(2, [0, 0, 0, 5])]
      && !outs[2].hasRow && outs[2].result.Ok? && outs[2].calls == []
  {
    assert AllRowsDelivered(ExamplePager, deserialize) by {
      assert RowDelivered(ExampleRow1, 3, deserialize);
      assert RowDelivered(ExampleRow2, 3, deserialize);
    }
    EveryRowDeliveredThenNoMore(ExamplePager, deserialize, 3);
    ExampleRowCalls();
  }

  /** A user-defined type with fields x: int and y: text has two fields,
      read back in declaration order, each through a non-null handle to a
      scalar node. */
  lemma UdtExample()
    ensures var h := Borrowed(UserDefinedType(false, UdtDefinition("ks", "point", [("x", Native(Int)), ("y", Native(Text))])));
      && GetCode(h) == CodeUdt
      && GetUdtName(h) == "point"
      && GetUdtFieldCount(h) == 2
      && GetUdtField(h, 0).0 == "x" && GetUdtField(h, 0).1 == Borrowed(Native(Int)) && GetCode(GetUdtField(h, 0).1) == 0x09
      && GetUdtField(h, 1).0 == "y" && GetUdtField(h, 1).1 == Borrowed(Native(Text)) && GetCode(GetUdtField(h, 1).1) == 0x0A
  {
  }
}

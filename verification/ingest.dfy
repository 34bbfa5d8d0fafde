/**
 * `read_asn_tsv`: the row source is filtered, each kept row is parsed and
 * its range expanded into one record per CIDR block; and the
 * `collect::<Result<Vec<_>, _>>()` that `Db::form_tsv` applies to it.
 */
module Ingest {
  import opened Wrappers
  import opened Ipv4
  import opened Cidr
  import opened Asn

  /** One tab-separated row: range_start, range_end, as_number, country, owner. */
  datatype Row = Row(rangeStart: Text, rangeEnd: Text, asNumber: Text, country: Text, owner: Text)

  /** A structural error reported by the row source itself (`csv::Error`). */
  datatype SourceError = SourceError(description: string)

  /** `TsvParseError`: the lower-level parse error is reduced to the field context. */
  datatype TsvParseError =
    | TsvError(cause: SourceError)
    | AddrFieldParseError(context: string)
    | IntFieldParseError(context: string)

  /** The text parsers of `Ipv4Addr` and `u32`; only success or failure matters. */
  datatype Parsers = Parsers(addr: Text -> Option<u32>, number: Text -> Option<u32>)

  /** A row whose three numeric fields parsed. */
  datatype ParsedRow = ParsedRow(rangeStart: u32, rangeEnd: u32, asNumber: u32, country: Text, owner: Text)

  /** The owner texts that mark unassigned space: "Not routed" and "None" (ASCII). */
  const NotRouted: Text := [0x4E, 0x6F, 0x74, 0x20, 0x72, 0x6F, 0x75, 0x74, 0x65, 0x64]
  const NoneOwner: Text := [0x4E, 0x6F, 0x6E, 0x65]

  /** The filter: a row is dropped only when it was read and its owner marks unassigned space. */
  predicate Kept(row: Result<Row, SourceError>)
  {
    row.Failure? || !(row.value.owner == NotRouted || row.value.owner == NoneOwner)
  }

  /** Field parsing, in field order; the first field that fails names the error. */
  function ParseRow(p: Parsers, row: Row): (r: Result<ParsedRow, TsvParseError>)
    ensures r.Success? <==>
      p.addr(row.rangeStart).Some? && p.addr(row.rangeEnd).Some? && p.number(row.asNumber).Some?
    ensures p.addr(row.rangeStart).None? ==>
      r == Failure(AddrFieldParseError("parsing range_start IP"))
    ensures p.addr(row.rangeStart).Some? && p.addr(row.rangeEnd).None? ==>
      r == Failure(AddrFieldParseError("parsing range_end IP"))
    ensures p.addr(row.rangeStart).Some? && p.addr(row.rangeEnd).Some? && p.number(row.asNumber).None? ==>
      r == Failure(IntFieldParseError("parsing as_number"))
    ensures r.Success? ==> r.value == ParsedRow(p.addr(row.rangeStart).value, p.addr(row.rangeEnd).value,
                                                p.number(row.asNumber).value, row.country, row.owner)
  {
    var rangeStart :- ParseField(p.addr(row.rangeStart), AddrFieldParseError("parsing range_start IP"));
    var rangeEnd :- ParseField(p.addr(row.rangeEnd), AddrFieldParseError("parsing range_end IP"));
    var asNumber :- ParseField(p.number(row.asNumber), IntFieldParseError("parsing as_number"));
    Success(ParsedRow(rangeStart, rangeEnd, asNumber, row.country, row.owner))
  }

  /** `wrap_error_while`: a failed parse becomes the given tagged error. */
  function ParseField(v: Option<u32>, err: TsvParseError): Result<u32, TsvParseError>
  {
    match v
    case Some(x) => Success(x)
    case None => Failure(err)
  }

  /** One record per block, each carrying the row's attribution. */
  function BlockRecords(nets: seq<Net>, row: ParsedRow): (recs: seq<Record>)
    ensures |recs| == |nets|
  {
    // Each block is aligned, so its network address (`net.network()`) is its base address.
    seq(|nets|, i requires 0 <= i < |nets| =>
      Record(nets[i].addr, nets[i].prefixLen, row.asNumber, row.country, row.owner))
  }

  /** One record per block of the row's range. */
  function Expand(row: ParsedRow): seq<Record>
  {
    BlockRecords(Subnets(row.rangeStart, row.rangeEnd), row)
  }

  lemma TilingRecords(nets: seq<Net>, start: int, end: int, row: ParsedRow)
    requires Tiles(nets, start, end)
    ensures var recs := BlockRecords(nets, row);
      forall i :: 0 <= i < |recs| ==>
        && recs[i].asNumber == row.asNumber && recs[i].country == row.country && recs[i].owner == row.owner
        && MinPrefixLen <= recs[i].prefixLen <= 32 && Aligned(Network(recs[i]))
    ensures var recs := BlockRecords(nets, row);
      forall i, j :: 0 <= i < j < |recs| ==> Last(Network(recs[i])) < recs[j].ip
  {
    var recs := BlockRecords(nets, row);
    assert forall i :: 0 <= i < |recs| ==> Network(recs[i]) == nets[i];
  }

  lemma TilingRecordsExact(nets: seq<Net>, start: int, end: int, row: ParsedRow, a: int)
    requires Tiles(nets, start, end)
    ensures ValidPrefixes(BlockRecords(nets, row))
    ensures start <= a <= end <==> Covered(BlockRecords(nets, row), a)
    ensures var recs := BlockRecords(nets, row);
      forall i, j :: 0 <= i < j < |recs| && Contains(Network(recs[i]), a) ==> !Contains(Network(recs[j]), a)
  {
    var recs := BlockRecords(nets, row);
    assert forall i :: 0 <= i < |recs| ==> Network(recs[i]) == nets[i];
    TilesExact(nets, start, end, a);
  }

  /**
   * The records of a row carry its AS number, country and owner unchanged,
   * have prefix lengths MinPrefixLen..32 and aligned base addresses, and
   * are in strictly increasing address order with disjoint networks.
   */
  lemma ExpandRecords(row: ParsedRow)
    ensures var recs := Expand(row);
      forall i :: 0 <= i < |recs| ==>
        && recs[i].asNumber == row.asNumber && recs[i].country == row.country && recs[i].owner == row.owner
        && MinPrefixLen <= recs[i].prefixLen <= 32 && Aligned(Network(recs[i]))
    ensures var recs := Expand(row);
      forall i, j :: 0 <= i < j < |recs| ==> Last(Network(recs[i])) < recs[j].ip
  {
    TilingRecords(Subnets(row.rangeStart, row.rangeEnd), row.rangeStart, row.rangeEnd, row);
  }

  /**
   * The records of a row are exact: an address lies in the row's range if
   * and only if some record's network contains it, and no two records'
   * networks share an address.
   */
  lemma ExpandExact(row: ParsedRow, a: int)
    ensures ValidPrefixes(Expand(row))
    ensures row.rangeStart <= a <= row.rangeEnd <==> Covered(Expand(row), a)
    ensures var recs := Expand(row);
      forall i, j :: 0 <= i < j < |recs| && Contains(Network(recs[i]), a) ==> !Contains(Network(recs[j]), a)
  {
    TilingRecordsExact(Subnets(row.rangeStart, row.rangeEnd), row.rangeStart, row.rangeEnd, row, a);
  }

  /**
   * A kept row after the two `map` steps: the source's error becomes
   * `TsvError`, otherwise the fields are parsed.
   */
  function RowData(p: Parsers, row: Result<Row, SourceError>): Result<ParsedRow, TsvParseError>
  {
    match row
    case Failure(e) => Failure(TsvError(e))
    case Success(fields) => ParseRow(p, fields)
  }

  /** `into_iter().flatten()` of an optional record sequence. */
  function Flatten(records: Option<seq<Record>>): seq<Record>
  {
    match records
    case None => []
    case Some(recs) => recs
  }

  /** `map(Ok)` over records. */
  function Oks(recs: seq<Record>): (items: seq<Result<Record, TsvParseError>>)
    ensures |items| == |recs|
  {
    seq(|recs|, i requires 0 <= i < |recs| => Success(recs[i]))
  }

  /** `into_iter().map(Err)` of an optional error. */
  function Errs(errors: Option<TsvParseError>): seq<Result<Record, TsvParseError>>
  {
    match errors
    case None => []
    case Some(e) => [Failure(e)]
  }

  /**
   * The `flat_map` step for one kept row: the row's records (when it parsed)
   * as successes, followed by its error (when it did not).
   */
  function RowItems(p: Parsers, row: Result<Row, SourceError>): seq<Result<Record, TsvParseError>>
  {
    var data := RowData(p, row);
    var records := if data.Success? then Some(Expand(data.value)) else None;
    var errors := if data.Failure? then Some(data.error) else None;
    Oks(Flatten(records)) + Errs(errors)
  }

  /**
   * A kept row contributes exactly one error and no record when the source
   * failed on it or one of its fields does not parse, and otherwise exactly
   * the records of its range, all successful.
   */
  lemma RowItemsCases(p: Parsers, row: Result<Row, SourceError>)
    ensures row.Failure? ==> RowItems(p, row) == [Failure(TsvError(row.error))]
    ensures row.Success? && ParseRow(p, row.value).Failure? ==>
      RowItems(p, row) == [Failure(ParseRow(p, row.value).error)]
    ensures row.Success? && ParseRow(p, row.value).Success? ==>
      var recs := Expand(ParseRow(p, row.value).value);
      |RowItems(p, row)| == |recs| &&
      forall i :: 0 <= i < |recs| ==> RowItems(p, row)[i] == Success(recs[i])
  {
    var data := RowData(p, row);
    if data.Failure? {
      assert RowItems(p, row) == [Failure(data.error)] by {
        assert Oks(Flatten(None)) == [];
        assert RowItems(p, row) == [] + [Failure(data.error)];
      }
    } else {
      assert RowItems(p, row) == Oks(Expand(data.value)) by {
        assert RowItems(p, row) == Oks(Expand(data.value)) + [];
      }
    }
  }

  /** `read_asn_tsv` over a finite row sequence. */
  function ReadAsnTsv(p: Parsers, rows: seq<Result<Row, SourceError>>): seq<Result<Record, TsvParseError>>
  {
    if rows == [] then []
    else (if Kept(rows[0]) then RowItems(p, rows[0]) else []) + ReadAsnTsv(p, rows[1..])
  }

  lemma {:induction false} ReadAsnTsvAppend(p: Parsers, a: seq<Result<Row, SourceError>>, b: seq<Result<Row, SourceError>>)
    ensures ReadAsnTsv(p, a + b) == ReadAsnTsv(p, a) + ReadAsnTsv(p, b)
  {
    if a != [] {
      assert (a + b)[0] == a[0];
      assert (a + b)[1..] == a[1..] + b;
      ReadAsnTsvAppend(p, a[1..], b);
    } else {
      assert a + b == b;
    }
  }

  /** A row whose owner is "Not routed" or "None" contributes nothing, wherever it stands. */
  lemma UnroutedRowContributesNothing(p: Parsers, before: seq<Result<Row, SourceError>>, row: Row,
                                      after: seq<Result<Row, SourceError>>)
    requires row.owner == NotRouted || row.owner == NoneOwner
    ensures ReadAsnTsv(p, before + [Success(row)] + after) == ReadAsnTsv(p, before + after)
  {
    var single: seq<Result<Row, SourceError>> := [Success(row)];
    assert !Kept(single[0]) && single[1..] == [];
    assert ReadAsnTsv(p, single) == [];
    calc {
      ReadAsnTsv(p, before + single + after);
      { ReadAsnTsvAppend(p, before + single, after); }
      ReadAsnTsv(p, before + single) + ReadAsnTsv(p, after);
      { ReadAsnTsvAppend(p, before, single); }
      ReadAsnTsv(p, before) + ReadAsnTsv(p, after);
      { ReadAsnTsvAppend(p, before, after); }
      ReadAsnTsv(p, before + after);
    }
  }

  /** A row the source could not read is never filtered: it surfaces as exactly one error in place. */
  lemma SourceErrorSurfaces(p: Parsers, before: seq<Result<Row, SourceError>>, e: SourceError,
                            after: seq<Result<Row, SourceError>>)
    ensures ReadAsnTsv(p, before + [Failure(e)] + after) ==
      ReadAsnTsv(p, before) + [Failure(TsvError(e))] + ReadAsnTsv(p, after)
  {
    var single: seq<Result<Row, SourceError>> := [Failure(e)];
    assert Kept(single[0]) && single[1..] == [];
    assert ReadAsnTsv(p, single) == [Failure(TsvError(e))];
    ReadAsnTsvAppend(p, before + single, after);
    ReadAsnTsvAppend(p, before, single);
  }

  /** A record that is one CIDR block of a range: prefix length MinPrefixLen..32, aligned base address. */
  predicate BlockRecord(r: Record)
  {
    MinPrefixLen <= r.prefixLen <= 32 && Aligned(Network(r))
  }

  /** Every successful item is a block. */
  predicate AllBlocks(items: seq<Result<Record, TsvParseError>>)
  {
    forall i :: 0 <= i < |items| && items[i].Success? ==> BlockRecord(items[i].value)
  }

  lemma RowItemsBlocks(p: Parsers, row: Result<Row, SourceError>)
    ensures AllBlocks(RowItems(p, row))
  {
    RowItemsCases(p, row);
    if row.Success? && ParseRow(p, row.value).Success? {
      ExpandRecords(ParseRow(p, row.value).value);
    }
  }

  lemma AllBlocksAppend(a: seq<Result<Record, TsvParseError>>, b: seq<Result<Record, TsvParseError>>)
    requires AllBlocks(a) && AllBlocks(b)
    ensures AllBlocks(a + b)
  {
    forall i | 0 <= i < |a + b| && (a + b)[i].Success?
      ensures BlockRecord((a + b)[i].value)
    {
      if i >= |a| {
        assert (a + b)[i] == b[i - |a|];
      }
    }
  }

  /** Every record `read_asn_tsv` yields is a block. */
  lemma {:induction false} ReadAsnTsvBlocks(p: Parsers, rows: seq<Result<Row, SourceError>>)
    ensures AllBlocks(ReadAsnTsv(p, rows))
  {
    if rows != [] {
      ReadAsnTsvBlocks(p, rows[1..]);
      RowItemsBlocks(p, rows[0]);
      AllBlocksAppend(if Kept(rows[0]) then RowItems(p, rows[0]) else [], ReadAsnTsv(p, rows[1..]));
    }
  }

  /**
   * `collect::<Result<Vec<_>, _>>()`: all records when every item succeeded,
   * otherwise the first error.
   */
  function Collect(items: seq<Result<Record, TsvParseError>>): (r: Result<seq<Record>, TsvParseError>)
    ensures r.Success? <==> forall i :: 0 <= i < |items| ==> items[i].Success?
    ensures r.Success? ==> (|r.value| == |items| &&
      forall i :: 0 <= i < |items| ==> items[i] == Success(r.value[i]))
    ensures r.Failure? ==> exists i :: (0 <= i < |items| && items[i] == Failure(r.error) &&
      forall j :: 0 <= j < i ==> items[j].Success?)
  {
    if items == [] then Success([])
    else match items[0]
      case Failure(e) => Failure(e)
      case Success(x) =>
        match Collect(items[1..])
        case Failure(e) =>
          var k :| 0 <= k < |items[1..]| && items[1..][k] == Failure(e) &&
                   forall j :: 0 <= j < k ==> items[1..][j].Success?;
          assert items[k + 1] == Failure(e);
          Failure(e)
        case Success(xs) => Success([x] + xs)
  }
}

/**
 * The per-row loop of `main`: each `(owner, vestingId)` row is normalised,
 * looked up through the contract's `vestings` getter, and turned into one
 * output row, a success row or a failure row; the loop never stops early.
 */
module Enrichment {
  import opened Wrappers
  import opened PyStr
  import opened VestingId

  type Uint8 = x: nat | x < 0x100
  type Uint16 = x: nat | x < 0x1_0000
  type Uint64 = x: nat | x < 0x1_0000_0000_0000_0000
  type Uint128 = x: nat | x < 0x1_0000_0000_0000_0000_0000_0000_0000_0000

  /** web3 decodes an `address` output to its checksummed `0x` text of 42 characters. */
  type Address = s: string | |s| == 42 witness "0x" + seq(40, i => '0')

  /**
   * The outputs of `vestings(bytes32)`, in the getter's order: account,
   * curveType, managed, durationWeeks, startDate, amount, amountClaimed,
   * pausingDate, cancelled.
   */
  type VestingTuple = (Address, Uint8, bool, Uint16, Uint64, Uint128, Uint128, Uint64, bool)

  /** The contract call: the decoded outputs, or the `repr` of whatever the call raised. */
  type Accessor = Bytes32 -> Result<VestingTuple, string>

  datatype InputRow = InputRow(owner: string, vestingId: RawValue)

  /** An amount cell: the integer on a success row, `""` on a failure row. */
  datatype Cell = Blank | Int(n: nat)

  /** What the `error` column records: the exception the row raised. */
  datatype RowError =
    | Malformed(cause: IdError)
    | CallFailed(message: string)

  /** One dict appended to `rows`; `error` is `None` when the dict has no `error` key. */
  datatype OutputRow = OutputRow(
    owner: string,
    vestingId: string,
    account: string,
    amount: Cell,
    amountClaimed: Cell,
    error: Option<RowError>)

  /** The dict the `except` branch appends. */
  function FailedRow(owner: string, vestingId: string, e: RowError): OutputRow
  {
    OutputRow(owner, vestingId, "", Blank, Blank, Some(e))
  }

  /** A success row has an address and two 128-bit amounts; a failure row has none of them. */
  predicate WellFormed(r: OutputRow)
  {
    if r.error.None? then
      |r.account| == 42 &&
      r.amount.Int? && r.amount.n < 0x1_0000_0000_0000_0000_0000_0000_0000_0000 &&
      r.amountClaimed.Int? && r.amountClaimed.n < 0x1_0000_0000_0000_0000_0000_0000_0000_0000
    else
      r.account == "" && r.amount == Blank && r.amountClaimed == Blank
  }

  /** The row succeeds exactly when its identifier normalises and the call returns. */
  predicate Succeeds(row: InputRow, lookup: Accessor)
  {
    var id := Bytes32FromAny(row.vestingId);
    id.Ok? && lookup(id.value).Ok?
  }

  /** The output row the loop appends for one input row. */
  function EnrichRow(row: InputRow, lookup: Accessor): (out: OutputRow)
    ensures out.owner == row.owner && out.vestingId == StrForm(row.vestingId)
    ensures WellFormed(out)
    ensures out.error.None? <==> Succeeds(row, lookup)
    ensures Bytes32FromAny(row.vestingId).Err? ==>
      out.error == Some(Malformed(Bytes32FromAny(row.vestingId).error))
    ensures Bytes32FromAny(row.vestingId).Ok? && lookup(Bytes32FromAny(row.vestingId).value).Err? ==>
      out.error == Some(CallFailed(lookup(Bytes32FromAny(row.vestingId).value).error))
    ensures Succeeds(row, lookup) ==>
      var t := lookup(Bytes32FromAny(row.vestingId).value).value;
      out.account == t.0 && out.amount == Int(t.5) && out.amountClaimed == Int(t.6)
  {
    var shown := StrForm(row.vestingId);
    match Bytes32FromAny(row.vestingId)
    case Err(e) => FailedRow(row.owner, shown, Malformed(e))
    case Ok(id) =>
      match lookup(id)
      case Err(m) => FailedRow(row.owner, shown, CallFailed(m))
      case Ok(t) => OutputRow(row.owner, shown, t.0, Int(t.5), Int(t.6), None)
  }

  /** A row whose identifier does not normalise comes out the same whatever the contract would answer. */
  lemma MalformedSkipsCall(row: InputRow, lookup1: Accessor, lookup2: Accessor)
    requires Bytes32FromAny(row.vestingId).Err?
    ensures EnrichRow(row, lookup1) == EnrichRow(row, lookup2)
  {
  }

  /** The identifiers the loop passes to the contract call, in order: one per row that normalises. */
  function QueriedIds(input: seq<InputRow>): (ids: seq<Bytes32>)
    ensures |ids| <= |input|
  {
    if input == [] then []
    else
      QueriedIds(input[..|input| - 1]) + CallFor(input[|input| - 1])
  }

  /** The identifier one row hands to the contract call, if it gets that far. */
  function CallFor(row: InputRow): (ids: seq<Bytes32>)
    ensures |ids| <= 1
  {
    var id := Bytes32FromAny(row.vestingId);
    if id.Ok? then [id.value] else []
  }

  lemma QueriedIdsStep(input: seq<InputRow>, i: nat)
    requires i < |input|
    ensures QueriedIds(input[..i + 1]) == QueriedIds(input[..i]) + CallFor(input[i])
  {
    var prefix := input[..i + 1];
    assert prefix[..|prefix| - 1] == input[..i];
  }

  /** The number of input rows that come out as failure rows. */
  function FailedInputs(input: seq<InputRow>, lookup: Accessor): (n: nat)
    ensures n <= |input|
  {
    if input == [] then 0
    else FailedInputs(input[..|input| - 1], lookup) + (if Succeeds(input[|input| - 1], lookup) then 0 else 1)
  }

  lemma RowsExtend(input: seq<InputRow>, lookup: Accessor, rows: seq<OutputRow>, out: OutputRow)
    requires |rows| < |input|
    requires forall k :: 0 <= k < |rows| ==> rows[k] == EnrichRow(input[k], lookup)
    requires out == EnrichRow(input[|rows|], lookup)
    ensures forall k :: 0 <= k < |rows| + 1 ==> (rows + [out])[k] == EnrichRow(input[k], lookup)
  {
  }

  /**
   * The `for row in it` loop: one row appended per input row, in input order;
   * `calls` records the identifiers handed to the contract call.
   */
  method EnrichRows(input: seq<InputRow>, lookup: Accessor) returns (rows: seq<OutputRow>, ghost calls: seq<Bytes32>)
    ensures |rows| == |input|
    ensures forall k :: 0 <= k < |input| ==> rows[k] == EnrichRow(input[k], lookup)
    ensures calls == QueriedIds(input)
  {
    rows := [];
    calls := [];
    var i := 0;
    while i < |input|
      invariant 0 <= i <= |input|
      invariant |rows| == i
      invariant forall k :: 0 <= k < i ==> rows[k] == EnrichRow(input[k], lookup)
      invariant calls == QueriedIds(input[..i])
    {
      var owner := input[i].owner;
      var raw := input[i].vestingId;
      var outcome := Bytes32FromAny(raw);
      var out: OutputRow;
      if outcome.Err? {
        out := FailedRow(owner, StrForm(raw), Malformed(outcome.error));
      } else {
        calls := calls + [outcome.value];
        var result := lookup(outcome.value);
        if result.Err? {
          out := FailedRow(owner, StrForm(raw), CallFailed(result.error));
        } else {
          var t := result.value;
          out := OutputRow(owner, StrForm(raw), t.0, Int(t.5), Int(t.6), None);
        }
      }
      assert out == EnrichRow(input[i], lookup);
      QueriedIdsStep(input, i);
      RowsExtend(input, lookup, rows, out);
      rows := rows + [out];
      i := i + 1;
    }
    assert input[..|input|] == input;
  }
}

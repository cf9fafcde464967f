# check_vestings: row-wise enrichment of vesting identifiers

`check_vestings.py` reads a table of `(owner, vestingId)` rows. It looks up each
identifier through the `vestings(bytes32)` getter of the Safe VestingPool
contract. Then it writes the table back with three more columns: the vesting's
`account`, `amount` and `amountClaimed`. A row that fails gets an `error`
column entry, and the batch always runs to the end.

This Dafny project models the core of that script:

- **`bytes32_from_any`**. A `bytes`/`bytearray` value must be exactly 32 bytes.
  Any other value goes through `str()` and `strip()`, loses one lower-case `0x`,
  must then be 64 characters long, and is decoded with `bytes.fromhex`. Modules
  `PyStr` and `Hex` model the Python builtins involved (`str.strip`, `str(bytes)`,
  `bytes.fromhex`). They add a lower-case hex encoder, used as the decoder's
  inverse, and a reader for bytes literals (`UnescapeBody`), used as the repr's
  inverse.
  Module `VestingId` has the function as written (`BytesFromAny`) and the
  corrected normaliser (`Bytes32FromAny`; see Findings).
- **The per-row loop** (module `Enrichment`). The contract call is a parameter
  `lookup: Bytes32 -> Result<VestingTuple, string>`. `VestingTuple` is the
  getter's nine outputs in ABI order. A success row projects positions 0, 5 and 6.
  A failure row has blank fields and records the exception. `EnrichRows` is the
  loop, as a method that appends to a sequence. Its ghost `calls` output records
  every identifier handed to the contract.
- **Assembling the output** (module `OutputTable`). `FrameColumns` gives the
  columns of `pd.DataFrame(rows)`. The five base columns are moved first, then
  come any extra columns. The closing warning reports the number of rows with an
  `error` value. `Run` chains the loop, the columns and the count.

Three points where the code's behaviour is easy to misread:
- Only a lower-case `0x` is removed, so `0X…` fails the length check.
- `bytes.fromhex` skips ASCII whitespace between digit pairs.
- Amounts stay integers in the frame. Writing them as decimal text is part of
  `to_csv`, which is left out.

## Model

| member | source | states |
|---|---|---|
| `PyStr.Strip` | check_vestings.py:55 | `.strip()` with no argument: drops leading, then trailing, `str.isspace` characters; `TrimStartSpec`, `TrimEndSpec` and `StripSurrounded` state what it removes and keeps |
| `PyStr.TrimStartSpec` | check_vestings.py:55 | `strip()` drops exactly the leading run of whitespace: what remains is a suffix that does not start with a space |
| `PyStr.TrimEndSpec` | check_vestings.py:55 | `strip()` drops exactly the trailing run of whitespace: what remains is a prefix that does not end with a space |
| `PyStr.StripSurrounded` | check_vestings.py:55 | whitespace of any kind around a text that starts and ends with a non-space is removed, and nothing else |
| `PyStr.BytesRepr` | check_vestings.py:147 | `str()` of a bytes value is `b` plus a matching pair of quotes around 1 to 4 characters per byte; double quotes are used exactly when the bytes hold `'` and no `"`; the text reads back, escape by escape, as exactly those bytes |
| `PyStr.UnescapeReprBody` | check_vestings.py:147 | the text between the quotes of either repr, read back through its escapes (`\\`, `\'`, `\"`, `\t`, `\n`, `\r`, `\xhh`, printable ASCII as itself), gives the bytes it was written from |
| `PyStr.ByteArrayRepr` | check_vestings.py:147 | `str()` of a bytearray is `bytearray(b` plus a matching pair of quotes and `)` around 1 to 4 characters per byte; the quote is chosen as for bytes, every `'` is escaped even inside double quotes, and the text reads back as exactly those bytes |
| `PyStr.ReprInjective` | check_vestings.py:147 | two different byte sequences never show as the same text, as bytes or as bytearray, and a bytes repr never equals a bytearray repr |
| `PyStr.SingleQuoteRepr` | check_vestings.py:147 | a lone `'` shows as `b"'"` for bytes but as `bytearray(b"\'")` for a bytearray |
| `Hex.FromHex` | check_vestings.py:65 | `bytes.fromhex` yields at most one byte per two characters, and exactly that many only when every character is a hex digit |
| `Hex.FromHexOfDigits` | check_vestings.py:65 | an even-length run of hex digits always decodes, to half as many bytes |
| `Hex.FromHexRejects` | check_vestings.py:64-67 | a character that is neither a hex digit nor ASCII whitespace makes `bytes.fromhex` raise |
| `Hex.FromHexSkipsSpace` | check_vestings.py:65 | leading ASCII whitespace does not change what `bytes.fromhex` decodes |
| `Hex.FromHexToHex` | check_vestings.py:65 | decoding the lower-case hex of any bytes gives those bytes back |
| `Hex.ToHexFromHex` | check_vestings.py:65 | encoding what an even run of digits decodes to gives the digits back in lower case, so the digits' case does not affect the bytes |
| `VestingId.StrForm` | check_vestings.py:147 | the identifier shown in an output row is the raw value's text for a string cell, and for a bytes or bytearray cell its repr, which reads back as the raw bytes |
| `VestingId.StrFormInjective` | check_vestings.py:147 | two raw bytes or bytearray identifiers that show the same text in the output are the same value, so a row stays traceable to its input |
| `VestingId.HexBody` | check_vestings.py:56-59 | the stripped text with one leading lower-case `0x` removed, otherwise unchanged; `UpperCasePrefixRejected` shows that `0X` is kept |
| `VestingId.Body` | check_vestings.py:55-59 | `s_hex`: the stripped text without its `0x`, the string the length and hex checks look at; `RepresentationInvariance` shows that surrounding whitespace and the prefix leave it the same for 64 hex digits |
| `VestingId.BytesFromAny` | check_vestings.py:42-67 | as written: raw bytes are accepted exactly when 32 long; a string result has at most 32 bytes, and exactly 32 only when its 64-character body is all hex digits |
| `VestingId.Bytes32FromAny` | check_vestings.py:42-67 | corrected: raw bytes are accepted exactly when 32 long and returned unchanged; a string is accepted exactly when its stripped, `0x`-less body is 64 hex digits, and the result re-encodes to that body in lower case |
| `VestingId.CorrectionAgrees` | check_vestings.py:61-67 | the corrected normaliser gives the original's error wherever the original raises, and its result wherever that is 32 bytes; otherwise it raises the invalid-hex error |
| `VestingId.CanonicalRoundTrip` | check_vestings.py:55-65 | the lower-case hex of any 32-byte identifier, with or without `0x`, normalises back to it |
| `VestingId.RepresentationInvariance` | check_vestings.py:49-65 | for the same 64 hex digits, the forms with and without `0x`, with surrounding whitespace, and as raw bytes or bytearray all normalise to the same identifier |
| `VestingId.UpperCasePrefixRejected` | check_vestings.py:56-62 | `0X` followed by 64 hex digits is not stripped and fails the length check with length 66 |
| `VestingId.WrongLengthRejected` | check_vestings.py:61-62 | a body whose length is not 64 fails with the length error, reporting that length and the stripped text |
| `VestingId.NonHexRejected` | check_vestings.py:64-67 | as written, a 64-character body holding a character that is neither a hex digit nor ASCII whitespace fails with the invalid-hex error |
| `VestingId.NonHexRejectedCorrected` | check_vestings.py:64-67 | corrected, a 64-character body holding any non-hex character, whitespace included, fails with the invalid-hex error |
| `VestingId.ShortIdentifierAccepted` | check_vestings.py:61-65 | as written, `0x` + 62 spaces + `11` passes both checks and yields the single byte 0x11; the corrected normaliser rejects it |
| `Enrichment.EnrichRow` | check_vestings.py:131-164 | with the corrected normaliser `Bytes32FromAny` (first finding): every output row keeps the owner and `str()` of the raw identifier; it has no error exactly when the identifier normalises and the call returns, and then account, amount and amountClaimed are outputs 0, 5 and 6; otherwise the fields are blank and the error is the normalisation error or the call's failure |
| `Enrichment.MalformedSkipsCall` | check_vestings.py:136-137 | a row whose identifier does not normalise comes out the same whatever the contract would answer |
| `Enrichment.QueriedIds` | check_vestings.py:136-137 | the contract is called at most once per input row |
| `Enrichment.EnrichRows` | check_vestings.py:126-164 | with the corrected normaliser (first finding): one output row per input row, in input order, each the row's enrichment; the contract is called exactly for the rows whose identifier normalises, in order |
| `OutputTable.Union` | check_vestings.py:166 | adding a dict's keys to the frame's columns keeps the existing columns as a prefix, includes every key and adds nothing else |
| `OutputTable.ExtraColumns` | check_vestings.py:170 | the extra columns are exactly the frame's columns that are not base columns |
| `OutputTable.SelectColumns` | check_vestings.py:171 | selecting columns succeeds, returning them in the requested order, exactly when the frame has all of them |
| `OutputTable.FrameColumns` | check_vestings.py:166 | the columns of `pd.DataFrame(rows)`: every row's keys, in order of first appearance; `FrameColumnsShape` gives them for the enriched rows |
| `OutputTable.FrameColumnsShape` | check_vestings.py:166 | a non-empty frame has the five base columns in order, then `error` exactly when some row failed |
| `OutputTable.ColumnsAsWritten` | check_vestings.py:169-171 | `out_df[base_cols + extra_cols]` as written: the reordered columns, or the `KeyError` naming the absent ones; `ColumnsAsWrittenShape` states both outcomes |
| `OutputTable.OutputColumns` | check_vestings.py:169-171 | the corrected assembly: the base columns, then the frame's other columns in order, for every table; `OutputColumnsShape` states the result and its agreement with the source |
| `OutputTable.ColumnsAsWrittenShape` | check_vestings.py:169-171 | as written, the reordering gives the base columns then `error` if some row failed, and raises `KeyError` for all five base columns when there are no rows |
| `OutputTable.OutputColumnsShape` | check_vestings.py:169-171 | corrected, every table, the empty one included, gets the base columns then `error` exactly when some row failed; this agrees with the source whenever the source succeeds |
| `OutputTable.ErrorCount` | check_vestings.py:176 | the number of rows whose `error` is set, at most the number of rows; `ErrorCountOfEnriched` equates it with the number of failed input rows |
| `OutputTable.ErrorCountOfEnriched` | check_vestings.py:176 | the number of rows with an error value equals the number of input rows that failed to normalise or whose call failed |
| `OutputTable.Warning` | check_vestings.py:175-178 | the count the closing warning reports, or none when the `error` column is absent or the count is zero; `WarningCountsFailures` states when it appears |
| `OutputTable.WarningCountsFailures` | check_vestings.py:175-178 | the warning is printed exactly when some row failed and reports how many did |
| `OutputTable.Run` | check_vestings.py:126-178 | with the corrected normaliser and the corrected column assembly (both findings), so an empty table also succeeds: the output has one row per input row, in order; its columns are the base columns plus `error` exactly when some row failed; the warning count is the number of failed input rows |

## Left out

- Command-line parsing, the RPC URL and Infura key choice, and the connection check (check_vestings.py:82-114): configuration and I/O.
- `load_input_csv` (check_vestings.py:70-78), `to_csv` and the `print` calls (check_vestings.py:173-178): file and network I/O. The input is a sequence of `(owner, vestingId)` rows and the output a sequence of records. Writing amounts as decimal text happens in `to_csv` and is not modelled.
- The web3 contract binding and ABI decoding (check_vestings.py:111, 124, 137): a foreign call. The decoded nine outputs come from the `lookup` parameter, which is a total function, so the model assumes the contract answers the same way for the same identifier. An address output is a 42-character text and is otherwise not checked.
- The tqdm progress bar (check_vestings.py:127-129): display only.
- The text of `repr(e)` (check_vestings.py:162): the `error` column holds the exception as a value, either the normaliser's error with the length and text its message shows, or the call's failure message.
- pandas NaN in the `error` column of success rows: modelled as `None`; the count is the number of `Some` values.
- `str()` of values other than `bytes` and `bytearray` (integers, NaN from an empty cell): such a value is carried with its `str()` text, and Python's formatting of each type is not modelled.
- The `owner` cell is modelled as text. pandas may read it as another type; the loop passes it through unchanged either way.
- Input columns other than `owner` and `vestingId`: the loop reads only those two, and they do not reach the output.
- `Enrichment.QueriedIds`: its contract states only the bound of one call per row; the exact sequence of calls is stated by `Enrichment.EnrichRows`.

## Findings

| source | as written | input that shows it | evidently intended | confidence | as-written member | corrected member |
|---|---|---|---|---|---|---|
| check_vestings.py:61-65 | a 64-character body goes to `bytes.fromhex`, which skips ASCII whitespace between digit pairs, so the result can be shorter than 32 bytes | `"0x" + 62 spaces + "11"` returns the single byte `b'\x11'` | accept only a body of 64 hex digits, that is, only a 32-byte result | not executed | `VestingId.ShortIdentifierAccepted` | `VestingId.Bytes32FromAny` |
| check_vestings.py:166-171 | `pd.DataFrame([])` has no columns, so `out_df[base_cols + extra_cols]` raises `KeyError` | an input table with a header and no rows | write an empty table with the five base columns | not executed | `OutputTable.ColumnsAsWrittenShape` | `OutputTable.OutputColumnsShape` |

With the first finding, the source would pass the short value to the contract call. The model's loop uses the corrected normaliser, so such a row fails with the invalid-hex error and no call is made. With the second finding, `Run` uses the corrected column assembly and also handles an empty table.

# sea-breeze-data: a Dafny model of the Windfinder scraper core

The scraper reads a Windfinder forecast page and turns it into a list of
`Data` records, one per forecast slot. It also answers "which record applies
at time T". This project models the logic of `src/windfinder.rs` as written,
quirks included, and proves properties of that model:

- **Compass** (`compass.dfy`): `angle_to_direction`. A bearing becomes one of 16
  labels via `round(angle / 22.5) as usize % 16`. Rounding is half away from
  zero, and the cast saturates negative values to 0.
- **Extractor** (`extractor.dfy`): the script scan of `obtain_data`.
  - A script is a candidate only if it contains `window.ctx.push` and, in
    lower case, `fcdata`.
  - A candidate script is split on `window.ctx.push(` and every `);` is removed
    from each segment.
  - From each segment the payload is the text after `fcData:`, cut at the first
    `]`, trimmed, with `]` appended and `": null"` replaced by `": 0"`.
  - Every payload is decoded, and the last one decoded wins.
  - The nested loops are the methods `ScanScripts` (scripts) and `ScanSegments`
    (segments of one script). Both are proved against the function `Payloads`.
- **Cells** (`cells.dfy`): the cell-integer parse of `parse_air_temperature` and
  `parse_wave_periods`. It reads the first token of `split_whitespace` as an
  `i32`, with 0 when there is no token or it does not parse.
- **Normalizer** (`normalizer.dfy`): the per-field mappers and the index-wise
  assembly of `Data` records.
- **Forecast** (`forecast.dfy`): `WindData::for_date`. It returns the first
  record in `(dt, dt + 2h]`, else the first record, else nothing.
- **Windfinder** (`windfinder.dfy`): `obtain_data` end to end, over the element
  texts the DOM selection yields.
- **Text** (`text.dfy`): the Rust string operations the code relies on, over
  `seq<char>`. These are `contains`, `split`, `replace`, `trim`,
  `to_lowercase` and `char::is_whitespace`, with the first-occurrence search
  (`IndexOf`) that `contains` and `split` share.
- **Wrappers** (`wrappers.dfy`): `Option`.

Timestamps are integer instants in seconds. A `DateTime` compares by instant
whatever its offset, so the offset is dropped. JSON decoding is a function
parameter `decode: string -> Option<seq<E>>`. Each `unwrap`/`expect`, and each
direct index into a vector, that can panic is a precondition:

- `Extractor.DecodesAll`
- `Normalizer.AllTimestamped`
- `Windfinder.Scrapable`
- the `requires` of `SpotName` and `Assemble`

`WindFinder` holds only an HTTP header map, and `WindData` is never updated in
place. The model therefore has no classes: every operation is a function over
values, except for the two scan loops and `ObtainData`, which calls them.

The model follows the code as written, including these behaviours:

- Negative bearings are not reduced by a true modulo. Every bearing at or below
  0 gives "N" (`Compass.NonPositiveIsNorth`).
- The array is cut at the first `]`, with no bracket-depth tracking. It is
  taken from the text between the first and any second `fcData:`.
- Failures panic rather than returning extraction errors. Here they are
  preconditions.
- `air_temperature` is a required `i32` that is indexed directly.
  `wave_direction` and `wave_height` are `Option`s, but they are always
  `Some`: their vectors are as long as the decoded list (`Normalizer.Assemble`).
- `wind_status` is the constant `"status"` (`get_wind_status`), not a pluggable
  classifier.
- A query at T+2.5h over slots at T, T+1h and T+3h returns the T+3h slot,
  because T+3h lies in (T+2.5h, T+4.5h]. The fallback to the first record
  needs a query with no slot in its window, such as T+4h
  (`Forecast.WindowExamples`).
- The code has no periodic refresher and no shared snapshot store: each
  scrape builds a fresh `WindData`.

## Model

| member | source | states |
|---|---|---|
| `Compass.Round` | src/windfinder.rs:69 | the result is within 0.5 of the input, and an exact half goes away from zero |
| `Compass.ToUsize` | src/windfinder.rs:69 | `as usize` keeps non-negative values and turns negative ones into 0 |
| `Compass.DirectionIndex` | src/windfinder.rs:69 | the index is always below 16 |
| `Compass.AngleToDirection` | src/windfinder.rs:64-71 | the result is always one of the 16 compass labels |
| `Compass.Sector` | src/windfinder.rs:64-71 | a non-negative bearing within 11.25 degrees below or above 22.5·n gives label n mod 16 (upper edge exclusive) |
| `Compass.NonPositiveIsNorth` | src/windfinder.rs:69 | every bearing ≤ 0 gives "N", because the cast saturates and no true modulo is applied |
| `Compass.FullTurn` | src/windfinder.rs:69 | for a non-negative bearing, a + 360 gives the same label as a |
| `Compass.Periodic` | src/windfinder.rs:64-71 | for a non-negative bearing, a + 360·k gives the same label as a, for every k ≥ 0 |
| `Compass.Examples` | src/windfinder.rs:64-71 | 0 → N, 90 → E, 180 → S, 349 → N (the index 16 wraps), −90 → N |
| `Text.Contains` | src/windfinder.rs:175-176 | `contains` holds exactly when the pattern occurs at some index |
| `Text.Split` | src/windfinder.rs:178 | `split` gives at least one piece, and one piece exactly when the separator is absent; the first piece is a prefix free of the separator and is followed by it when there are more |
| `Text.JoinSplit` | src/windfinder.rs:184 | joining the pieces of `split` with the separator gives back the text |
| `Text.SplitPiecesAvoidSep` | src/windfinder.rs:178-179 | no piece of `split` contains the separator |
| `Text.ReplaceAll` | src/windfinder.rs:180-182 | `replace` by a replacement no longer than the pattern never lengthens the text, and replacing a pattern by itself changes nothing |
| `Text.ReplaceIsJoinSplit` | src/windfinder.rs:180-194 | `replace` equals splitting on the pattern and joining the pieces with the replacement |
| `Text.ReplaceAbsent` | src/windfinder.rs:180-182 | `replace` of an absent pattern returns the text unchanged |
| `Text.ReplaceKeepsEndsWithOnly` | src/windfinder.rs:194 | if neither the pattern nor the replacement holds c, `replace` keeps "c occurs only as the last character" |
| `Text.AsciiWhitespace` | src/windfinder.rs:109-111 | on ASCII, `char::is_whitespace` holds exactly for space and the controls tab through carriage return |
| `Text.ToLower` | src/windfinder.rs:176 | `to_lowercase` keeps the length, leaves no upper-case ASCII letter, and changes a character only by lowering an upper-case ASCII letter |
| `Text.Trim` | src/windfinder.rs:190 | `trim` returns a slice of the text with only whitespace outside it, and neither end of the result is whitespace |
| `Cells.FirstToken` | src/windfinder.rs:109-111 | `split_whitespace().next()` is absent exactly for all-whitespace text; otherwise it is a non-empty whitespace-free slice after leading whitespace, ending at whitespace or at the end of the text |
| `Cells.ParseI32` | src/windfinder.rs:113 | `parse::<i32>` succeeds exactly when the token is an optional `+` or `-` followed by one or more digits and nothing else, and the signed value of those digits fits in 32 bits; the result is that signed value |
| `Cells.ParseCell` | src/windfinder.rs:109-114 | the cell value is a 32-bit integer: the parse of the first token when it parses, and 0 for an empty or whitespace-only cell or an unparsable first token |
| `Cells.LeadingZeroValue` | src/windfinder.rs:113 | a leading zero does not change the value of a digit string |
| `Cells.ParseFormatRoundTrip` | src/windfinder.rs:113 | `parse::<i32>` reads back the decimal rendering of every 32-bit value |
| `Cells.DecimalOfDigits` | src/windfinder.rs:113 | digits without a leading zero are exactly the decimal rendering of their value |
| `Cells.FormatParseRoundTrip` | src/windfinder.rs:113 | a token that parses, written without `+`, without a leading zero and not as "-0", is the rendering of its parsed value |
| `Cells.CellRoundTrip` | src/windfinder.rs:128-133 | a cell made of whitespace, a rendered value n, and then whitespace or nothing, reads as n |
| `Cells.Examples` | src/windfinder.rs:109-114 | "" → 0, "  \n" → 0, " 8 s" → 8 |
| `Cells.PlusSignExample` | src/windfinder.rs:109-114 | " +8 " → 8: an explicit `+` sign is accepted |
| `Cells.LeadingZeroExample` | src/windfinder.rs:109-114 | "08" → 8: leading zeros are accepted |
| `Cells.GluedUnitExample` | src/windfinder.rs:109-114 | "8s" → 0: a unit glued to the number makes the token unparsable |
| `Extractor.KeyAtLower` | src/windfinder.rs:176 | `fcdata` occurs at index i of the lower-cased script exactly when the script spells `fcdata` at i in any mix of cases |
| `Extractor.IsCandidate` | src/windfinder.rs:175-176 | a script is scanned exactly when it contains `window.ctx.push` and spells `fcdata` somewhere in any case |
| `Extractor.StripCalls` | src/windfinder.rs:180-182 | the stripped segment is the segment with every `window.ctx.push(` removed, then every `);` removed: the pieces between occurrences joined with nothing |
| `Extractor.IsolateArray` | src/windfinder.rs:186-192 | the text is the trimmed part before the first `]` (or all of it), followed by `]`, so `]` occurs once, at the end |
| `Extractor.RepairRemovesNulls` | src/windfinder.rs:194 | after replacing `": null"` by `": 0"` no `": null"` remains, not even one straddling a replacement |
| `Extractor.RepairNulls` | src/windfinder.rs:194 | the repaired text is the pieces between the `": null"` occurrences joined with `": 0"`; it has no `": null"` and keeps "`]` only at the end" |
| `Extractor.SegmentPayload` | src/windfinder.rs:180-194 | a segment yields a payload exactly when its stripped text contains `fcData:`; the payload is the repaired, isolated array of the text between the first `fcData:` and the next one (or the end); it has its only `]` at the end and no `": null"` |
| `Extractor.Overwrite` | src/windfinder.rs:193-195 | with no payload the list is unchanged; otherwise the list is the decoding of the last payload |
| `Extractor.LastDecoded` | src/windfinder.rs:171-195 | from the initial empty list, the scan ends empty when there is no payload and otherwise with the decoding of the last payload |
| `Extractor.OverwriteAppend` | src/windfinder.rs:193-195 | overwriting with one run of payloads and then another is overwriting with both runs in order |
| `Extractor.ScriptPayloads` | src/windfinder.rs:173-179 | a script that is not a candidate yields no payload |
| `Extractor.ScanSegments` | src/windfinder.rs:179-197 | after the segment loop, the list is the decoding of the segments' last payload, or unchanged when they have none |
| `Extractor.ScanScripts` | src/windfinder.rs:171-199 | the scan ends with the decoding of the page's last payload, or with the empty list when there is none |
| `Extractor.SegmentsPayloadsRepaired` | src/windfinder.rs:184-194 | every payload of a script's segments has its only `]` at the end and no `": null"` |
| `Extractor.PayloadsRepaired` | src/windfinder.rs:173-195 | every text handed to the decoder has its only `]` at the end and no `": null"` |
| `Extractor.NonCandidateIgnored` | src/windfinder.rs:175-177 | a script without `window.ctx.push` or a case-insensitive `fcdata` contributes nothing, wherever it stands |
| `Extractor.LastMatchWins` | src/windfinder.rs:193-195 | once later scripts carry a payload, earlier scripts do not affect the resulting list |
| `Extractor.NoMatchNoData` | src/windfinder.rs:171-199 | with no candidate script, every decode succeeds vacuously and the list stays empty |
| `Extractor.PushCallAlreadyGone` | src/windfinder.rs:178-182 | on every segment of the split, the `window.ctx.push(` removal is a no-op and only the `);` removal acts |
| `Extractor.LabelledPushIsCandidate` | src/windfinder.rs:175-176 | a script holding both `window.ctx.push(` and `fcData:` passes the candidate test |
| `Normalizer.Datetimes` | src/windfinder.rs:201-207 | one instant per element, namely its parsed timestamp |
| `Normalizer.WaveDirections` | src/windfinder.rs:54-62 | one compass label per element; a missing `wad` gives "N" |
| `Normalizer.WindDirections` | src/windfinder.rs:73-81 | one compass label per element; a missing `wd` gives "N" |
| `Normalizer.WindSpeeds` | src/windfinder.rs:83-88 | one speed per element: `ws`, or 0 when it is missing |
| `Normalizer.WaveHeights` | src/windfinder.rs:145-150 | one height per element: `wh`, or 0 when it is missing |
| `Normalizer.WindStatuses` | src/windfinder.rs:90-100 | the zip is as long as the shorter series, and every status is "status" |
| `Normalizer.Get` | src/windfinder.rs:224-226 | `Vec::get` is `Some(v[i])` exactly when i is in range |
| `Normalizer.Assemble` | src/windfinder.rs:219-231 | one record per decoded element, in order. Record i has element i's timestamp, wind label, speed and wave label/height (both always `Some`). Its `wave_period` is `Some(periods[i])` exactly when i < \|periods\|. Every record has status "status", air temperature `temps[i]` and the shared spot name. Requires \|temps\| ≥ count |
| `Normalizer.AssemblePrefix` | src/windfinder.rs:219-231 | records are built position by position: assembling the first n elements gives the first n records |
| `Forecast.FindInWindow` | src/windfinder.rs:31 | `find` returns the first position whose record lies in (dt, dt + 2h], or none when no record does |
| `Forecast.WindData.ForDate` | src/windfinder.rs:28-34 | the result is none exactly when the list is empty, and otherwise one of its records. It is the first record in (dt, dt + 2h] if one exists, else the first record |
| `Forecast.WindowExamples` | src/windfinder.rs:28-34 | slots at T, T+1h, T+3h: T+0.5h → T+1h, T+2.5h → T+3h, T+4h → T (fallback); an empty list gives none |
| `Windfinder.ParseCells` | src/windfinder.rs:102-138 | one value per cell, in order: value i is the cell parse of cell i, so it is a 32-bit integer and 0 for a blank cell |
| `Windfinder.SpotName` | src/windfinder.rs:156-167 | the spot name is a slice of the first element's text with only whitespace before and after it, and it neither starts nor ends with whitespace |
| `Windfinder.ObtainData` | src/windfinder.rs:169-234 | `obtain_data` returns as many records as the last decoded list has elements, assembled from that list, the parsed cells and the shared spot name; record i's air temperature is the parse of cell i, and its wave period is the parse of wave cell i when there is one |
| `Windfinder.NoForecastNoAnswer` | src/windfinder.rs:169-234 | a page with no candidate script is scraped by `obtain_data` without panicking into no records, and `for_date` on them answers nothing |

## Left out

- HTTP fetching is not modelled: `WindFinder::new`, its header map, `beach_request` and `scrape` are network I/O.
- DOM parsing and CSS selection (`Html::parse_document`, `Selector`, `select`, `text`) belong to the `scraper` library. Their results are the input lists of `Windfinder.Page`.
- JSON decoding (`serde_json::from_str`) is the parameter `decode`. The shape of `serde_json::Value` is reduced to `Normalizer.Entry`, whose fields are the results of `as_f64()` and of timestamp parsing.
- RFC 3339 parsing (`date_datestr_to_datetime`) and time-zone conversion are done by chrono and chrono_tz. Timestamps arrive as parsed instants in whole seconds, so sub-second precision is not modelled.
- IEEE-754 arithmetic is not modelled: bearings, speeds and heights are exact `real`s. NaN, infinities and rounding of `angle / 22.5` are left out.
- Compass.ToUsize: does not model saturation at `usize::MAX`, which needs a bearing above about 4·10^20 degrees; periodicity is stated without that bound.
- Text.ToLower: lowers ASCII letters only. For the `fcdata` test this is exact: no non-ASCII character lowers to any of the letters `f`, `c`, `d`, `a`, `t`.
- Panics on undecodable payloads, missing timestamps, a missing spot name or too few air-temperature cells are preconditions (`Windfinder.Scrapable`). They are not modelled as errors.
- `get_wind_status` (`Normalizer.WindStatus`) is a constant with no contract of its own. Its effect is stated by `Normalizer.WindStatuses` and `Normalizer.Assemble`.
- `src/main.rs` is not modelled: it is a process entry point that scrapes one fixed URL and prints the result.
- The periodic refresher, the shared snapshot store and its lock are not modelled: they are not present in the code.

/** `WindFinder::obtain_data` end to end, on what the DOM selection yields:
    the texts of the `<script>` elements, of the wave-period cells, of the
    air-temperature cells and of the spot-name elements. */
module Windfinder {
  import opened Wrappers
  import Text
  import Cells
  import Extractor
  import opened Normalizer
  import Forecast

  /** The element texts a page offers to the scraper, each list in document order. */
  datatype Page = Page(
    scripts: seq<string>,
    wavePeriodCells: seq<string>,
    airTemperatureCells: seq<string>,
    spotNameTexts: seq<string>)

  /** `parse_wave_periods` and `parse_air_temperature`: one integer per cell. */
  function ParseCells(cells: seq<string>): (r: seq<int>)
    ensures |r| == |cells|
    ensures forall i :: 0 <= i < |cells| ==> r[i] == Cells.ParseCell(cells[i])
    ensures forall i :: 0 <= i < |cells| ==> Cells.I32Min <= r[i] <= Cells.I32Max
    ensures forall i :: 0 <= i < |cells| && Text.AllWhitespace(cells[i]) ==> r[i] == 0
  {
    seq(|cells|, i requires 0 <= i < |cells| => Cells.ParseCell(cells[i]))
  }

  /** `parse_spot_name`: the first spot-name element's text, trimmed. The
      source unwraps the first match, so a page must have one. */
  function SpotName(texts: seq<string>): (name: string)
    requires |texts| > 0
    ensures exists lo :: Text.TrimmedAt(texts[0], name, lo)
    ensures name != [] ==> !Text.IsWhitespace(name[0]) && !Text.IsWhitespace(name[|name| - 1])
  {
    Text.Trim(texts[0])
  }

  /** The decoded forecast list the scan of `page` ends with. */
  function Fetched(page: Page, decode: string -> Option<seq<Entry>>): seq<Entry>
    requires Extractor.DecodesAll(page.scripts, decode)
  {
    Extractor.LastDecoded(Extractor.Payloads(page.scripts), decode)
  }

  /** What `obtain_data` needs to finish without panicking: every payload
      decodes, every element has a valid timestamp, a spot name is present and
      there are at least as many air-temperature cells as elements. */
  predicate Scrapable(page: Page, decode: string -> Option<seq<Entry>>) {
    && Extractor.DecodesAll(page.scripts, decode)
    && AllTimestamped(Fetched(page, decode))
    && |page.spotNameTexts| > 0
    && |page.airTemperatureCells| >= |Fetched(page, decode)|
  }

  /** `obtain_data`: scan the scripts, then assemble one record per element
      of the last decoded list, all sharing the page's spot name. */
  method ObtainData(page: Page, decode: string -> Option<seq<Entry>>) returns (w: Forecast.WindData)
    requires Scrapable(page, decode)
    ensures |w.data| == |Fetched(page, decode)|
    ensures w.data == Assemble(Fetched(page, decode), ParseCells(page.wavePeriodCells),
                               ParseCells(page.airTemperatureCells), SpotName(page.spotNameTexts))
    ensures forall i :: 0 <= i < |w.data| ==> w.data[i].spotName == SpotName(page.spotNameTexts)
    ensures forall i :: 0 <= i < |w.data| ==>
              w.data[i].airTemperature == Cells.ParseCell(page.airTemperatureCells[i])
    ensures forall i :: 0 <= i < |w.data| ==>
              w.data[i].wavePeriod == (if i < |page.wavePeriodCells|
                                       then Some(Cells.ParseCell(page.wavePeriodCells[i])) else None)
  {
    var fetched := Extractor.ScanScripts(page.scripts, decode);
    var wavePeriods := ParseCells(page.wavePeriodCells);
    var spotName := SpotName(page.spotNameTexts);
    var airTemperatures := ParseCells(page.airTemperatureCells);
    w := Forecast.WindData(Assemble(fetched, wavePeriods, airTemperatures, spotName));
  }

  /** A page whose scripts carry no forecast is scraped without panicking into
      no records, and the query on them answers nothing. */
  method NoForecastNoAnswer(page: Page, decode: string -> Option<seq<Entry>>, dt: Instant)
    returns (w: Forecast.WindData, answer: Option<Data>)
    requires forall s :: s in page.scripts ==> !Extractor.IsCandidate(s)
    requires |page.spotNameTexts| > 0
    ensures Scrapable(page, decode)
    ensures w.data == []
    ensures answer == None
  {
    Extractor.NoMatchNoData(page.scripts, decode);
    w := ObtainData(page, decode);
    answer := w.ForDate(dt);
  }
}

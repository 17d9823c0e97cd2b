/**
 The rendering half of `getWeatherForecast` in src/weather.ts: the fixed
 Russian header, one block per forecast day in the order the provider sent
 them, the final `trim()`, and the single fallback message for every failure.
 The HTTP request is not modelled; its outcome, together with the reading of
 the payload fields, arrives as a `Fetch` value.
 */
module Forecast {
  import opened Strings
  import opened Markdown
  import opened Emoji

  /**
   One element of `forecast.forecastday` as the renderer reads it. The date
   arrives already localized (the `toLocaleDateString` text) and each
   temperature as the text JavaScript interpolates for the number.
   */
  datatype DayForecast = DayForecast(
    localizedDate: string,
    conditionText: string,
    avgTempC: string,
    maxTempC: string,
    minTempC: string)

  /** The parts of a successful provider response the renderer reads. */
  datatype Report = Report(locationName: string, days: seq<DayForecast>)

  /** Outcome of the request and of reading the payload: either the report,
      or a failure carrying the provider's or the runtime's error detail. */
  datatype Fetch = Fetched(report: Report) | Failed(detail: string)

  /** The reply for every failure. */
  const NotFoundMessage: string := "🚫 Город не найден. Убедитесь, что название введено корректно."

  /** The header line: it opens with the pin, carries the location as it is,
      unescaped, from the fourth character on, and ends with a colon after
      the fixed day count "4 дня". */
  function HeaderLine(location: string): (line: string)
    ensures |line| == |location| + 24
    ensures line[0] == '📍' && line[|line| - 1] == ':'
    ensures line[3..3 + |location|] == location
    ensures line[|line| - 6..] == "4 дня:"
  {
    "📍 *" + location + "* — прогноз на 4 дня:"
  }

  /** The template of one day's block, slot by slot, without the blank line
      that follows it. */
  function BlockText(date: string, icon: Icon, condition: string,
                     avg: string, max: string, min: string): string
  {
    "📅 *" + date + "*\n"
    + Symbol(icon) + " " + condition + "\n"
    + "🌡️ Средняя: " + avg + "°C (🔺 " + max + "° / 🔻 " + min + "°)"
  }

  /** One day's block as the loop body fills the template: the condition is
      escaped, classified after escaping, and escaped once more when shown.
      It opens with the calendar and ends with the closing parenthesis of the
      temperature line. */
  function DayBlock(day: DayForecast): (block: string)
    ensures |block| > 0 && block[0] == '📅' && block[|block| - 1] == ')'
  {
    var conditionText := Escape(day.conditionText);
    BlockText(Escape(day.localizedDate), WeatherEmoji(conditionText), Escape(conditionText),
              day.avgTempC, day.maxTempC, day.minTempC)
  }

  /** What the block shows, in terms of the provider's raw data: the icon of
      the raw condition text, the date escaped once (so it reads back as the
      date), the condition escaped twice (so it reads back as the raw text only
      after two rounds of unescaping) and the temperatures verbatim. */
  lemma DayBlockShows(day: DayForecast)
    ensures DayBlock(day)
            == BlockText(Escape(day.localizedDate), WeatherEmoji(day.conditionText),
                         Escape(Escape(day.conditionText)),
                         day.avgTempC, day.maxTempC, day.minTempC)
    ensures Unescape(Escape(day.localizedDate)) == day.localizedDate
    ensures Unescape(Unescape(Escape(Escape(day.conditionText)))) == day.conditionText
  {
    EscapeKeepsIcon(day.conditionText);
    UnescapeEscape(day.localizedDate);
    UnescapeEscape(Escape(day.conditionText));
    UnescapeEscape(day.conditionText);
  }

  /** The blocks of `days`, one per day, in input order. */
  function DayBlocks(days: seq<DayForecast>): (blocks: seq<string>)
    ensures |blocks| == |days|
    ensures forall i :: 0 <= i < |days| ==> blocks[i] == DayBlock(days[i])
    ensures forall i :: 0 <= i < |days| ==> |blocks[i]| > 0 && blocks[i][|blocks[i]| - 1] == ')'
  {
    seq(|days|, i requires 0 <= i < |days| => DayBlock(days[i]))
  }

  /** `blocks` in order, each preceded by a blank line. */
  function Joined(blocks: seq<string>): string
    decreases |blocks|
  {
    if |blocks| == 0 then "" else "\n\n" + blocks[0] + Joined(blocks[1..])
  }

  /** Joined runs of blocks concatenate in order. */
  lemma {:induction false} JoinedAppend(a: seq<string>, b: seq<string>)
    ensures Joined(a + b) == Joined(a) + Joined(b)
    decreases |a|
  {
    if |a| == 0 {
      assert a + b == b;
    } else {
      assert (a + b)[0] == a[0];
      assert (a + b)[1..] == a[1..] + b;
      JoinedAppend(a[1..], b);
    }
  }

  /** Joining one more block appends it after a blank line. */
  lemma JoinedSnoc(a: seq<string>, b: string)
    ensures Joined(a + [b]) == Joined(a) + "\n\n" + b
  {
    JoinedAppend(a, [b]);
    assert [b][1..] == [];
  }

  /** The value of `result` once the loop has appended `blocks` to `header`,
      a blank line after the header and after every block: the header, the
      blocks joined by blank lines, and one trailing blank line. */
  function Accumulated(header: string, blocks: seq<string>): (result: string)
    ensures result == header + Joined(blocks) + "\n\n"
    decreases |blocks|
  {
    if |blocks| == 0 then header + "\n\n"
    else
      var init := blocks[..|blocks| - 1];
      var last := blocks[|blocks| - 1];
      JoinedSnoc(init, last);
      assert init + [last] == blocks;
      Accumulated(header, init) + last + "\n\n"
  }

  /** The message layout: the header, then every day's block, in input order,
      separated by blank lines, with nothing after the last block. */
  function Layout(location: string, days: seq<DayForecast>): string {
    HeaderLine(location) + Joined(DayBlocks(days))
  }

  /** Joined blocks end with the last character of the last block. */
  lemma {:induction false} JoinedLast(blocks: seq<string>)
    requires |blocks| > 0 && |blocks[|blocks| - 1]| > 0
    ensures var j := Joined(blocks); var last := blocks[|blocks| - 1];
            |j| > 0 && j[|j| - 1] == last[|last| - 1]
    decreases |blocks|
  {
    var rest := blocks[1..];
    if |rest| == 0 {
      assert Joined(blocks) == "\n\n" + blocks[0] + "";
    } else {
      assert rest[|rest| - 1] == blocks[|blocks| - 1];
      JoinedLast(rest);
    }
  }

  /** A header followed by joined blocks starts like the header and ends
      like the last block, or like the header when there are no blocks. */
  lemma HeaderJoinedEnds(header: string, blocks: seq<string>)
    requires |header| > 0
    requires |blocks| > 0 ==> |blocks[|blocks| - 1]| > 0
    ensures var l := header + Joined(blocks);
            && |l| > 0 && l[0] == header[0]
            && l[|l| - 1] == (if |blocks| == 0 then header[|header| - 1]
                              else blocks[|blocks| - 1][|blocks[|blocks| - 1]| - 1])
  {
    if |blocks| > 0 {
      JoinedLast(blocks);
    } else {
      assert header + Joined(blocks) == header;
    }
  }

  /** The layout starts with the pin and ends with the header's colon when
      there are no days, or with the last block's closing parenthesis. */
  lemma LayoutEnds(location: string, days: seq<DayForecast>)
    ensures |Layout(location, days)| > 0
    ensures Layout(location, days)[0] == '📍'
    ensures Layout(location, days)[|Layout(location, days)| - 1] == (if |days| == 0 then ':' else ')')
  {
    HeaderJoinedEnds(HeaderLine(location), DayBlocks(days));
  }

  /** Trimming the loop result of a header and blocks that start and end with
      visible characters removes exactly the trailing blank line. */
  lemma TrimAccumulated(header: string, blocks: seq<string>)
    requires |header| > 0 && !IsJsWhitespace(header[0]) && !IsJsWhitespace(header[|header| - 1])
    requires |blocks| > 0 ==> |blocks[|blocks| - 1]| > 0
                              && !IsJsWhitespace(blocks[|blocks| - 1][|blocks[|blocks| - 1]| - 1])
    ensures Trim(Accumulated(header, blocks)) == header + Joined(blocks)
  {
    var l := header + Joined(blocks);
    HeaderJoinedEnds(header, blocks);
    assert forall k :: 0 <= k < |"\n\n"| ==> IsJsWhitespace("\n\n"[k]);
    TrimDropsTrailingWhitespace(l, "\n\n");
  }

  /** `result.trim()` after the loop removes exactly the trailing blank line. */
  lemma TrimmedAccumulated(location: string, days: seq<DayForecast>)
    ensures Trim(Accumulated(HeaderLine(location), DayBlocks(days))) == Layout(location, days)
  {
    var header := HeaderLine(location);
    assert !IsJsWhitespace(header[0]) && !IsJsWhitespace(header[|header| - 1]) by {
      assert header[0] == '📍' && header[|header| - 1] == ':';
    }
    TrimAccumulated(header, DayBlocks(days));
  }

  /** `getWeatherForecast` after the request: the fallback message for any
      failure, otherwise the trimmed result of the loop. */
  function GetWeatherForecast(fetch: Fetch): (reply: string)
    ensures fetch.Failed? ==> reply == NotFoundMessage
    ensures fetch.Fetched? ==> reply == Layout(fetch.report.locationName, fetch.report.days)
  {
    match fetch
    case Failed(_) => NotFoundMessage
    case Fetched(report) =>
      TrimmedAccumulated(report.locationName, report.days);
      Trim(Accumulated(HeaderLine(report.locationName), DayBlocks(report.days)))
  }

  /** The reply always opens with the fixed header: the location as given,
      unescaped, and "4 дня" whatever the number of days. */
  lemma HeaderIgnoresDays(location: string, days: seq<DayForecast>)
    ensures StartsWith(GetWeatherForecast(Fetched(Report(location, days))), HeaderLine(location))
    ensures var reply := GetWeatherForecast(Fetched(Report(location, days)));
            && |reply| >= |location| + 24
            && reply[3..3 + |location|] == location
            && reply[|location| + 18..|location| + 24] == "4 дня:"
  {
    var header := HeaderLine(location);
    HeaderSlices(header + Joined(DayBlocks(days)), header, location);
  }

  /** Whatever follows the header, the location and the day count stay where
      the header put them. */
  lemma HeaderSlices(reply: string, header: string, location: string)
    requires |header| == |location| + 24 && |header| <= |reply| && reply[..|header|] == header
    requires header[3..3 + |location|] == location && header[|header| - 6..] == "4 дня:"
    ensures reply[3..3 + |location|] == location
    ensures reply[|location| + 18..|location| + 24] == "4 дня:"
  {
    assert reply[3..3 + |location|] == header[3..3 + |location|];
    assert reply[|location| + 18..|location| + 24] == header[|header| - 6..];
  }

  /** Appending a day to the report appends exactly its block to the reply. */
  lemma LayoutAppendsDay(location: string, days: seq<DayForecast>, day: DayForecast)
    ensures Layout(location, days + [day]) == Layout(location, days) + "\n\n" + DayBlock(day)
  {
    DayBlocksSnoc(days, day);
    HeaderJoinedSnoc(HeaderLine(location), DayBlocks(days), DayBlock(day));
  }

  /** A header followed by one more joined block gains a blank line and the block. */
  lemma HeaderJoinedSnoc(header: string, blocks: seq<string>, block: string)
    ensures header + Joined(blocks + [block]) == header + Joined(blocks) + "\n\n" + block
  {
    JoinedSnoc(blocks, block);
  }

  /** The blocks of one more day are the blocks so far and the new one. */
  lemma DayBlocksSnoc(days: seq<DayForecast>, day: DayForecast)
    ensures DayBlocks(days + [day]) == DayBlocks(days) + [DayBlock(day)]
  {
  }
}

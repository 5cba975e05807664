# ClimaSynapse forecast logic in Dafny

This project models the logic behind the ClimaSynapse climate forecasting page of the
cri-temp web site, and the two small pieces of state elsewhere in the site.

- **Map marker** (`climate_map.dfy`, module `ClimateMap`): the current reading comes from
  the first hourly entry, with defaults. It is then classified into a colour band
  (temperature, precipitation) or a condition colour (extreme weather), and labelled.
- **Forecast card** (`forecast_dashboard.dfy`, module `ForecastDashboard`):
  - the series charted for each forecast horizon;
  - the `MM/DD` tick of a daily date;
  - the data keys;
  - the per-point extreme-weather flag;
  - the chart chosen for each map layer;
  - the card's title and description.
- **Analysis text formatter** (`markdown.dfy`, module `Markdown`): the forecast service's
  risk and impact analyses are cut into `### ` sections, each with a title and items, or
  into paragraphs. `**x**` and `*x*` become `<strong>` and `<em>`, and colours cycle by
  position. The handful of regular expressions involved are written out as a `Pattern`
  with leftmost, non-overlapping match semantics.
- **Forecasting page state** (`forecast_page.dfy`, class `ForecastPage.ForecastPage`): the
  location form and the fetch life cycle, plus the three panels (map and charts, risks,
  impact).
- **Adaptation form hook** (`adaptnet.dfy`): a five-field form record updated one field at
  a time, and the request that turns it into a plan.
- **Technical-support page** (`tech_support.dfy`): the FAQ accordion and the ticket flag.
- **Shared modules**: `types.dfy` holds the data model, including the map layer and forecast
  horizon unions and the weather document, and the outcomes of a `fetch`.
  `jsstrings.dfy` holds the JavaScript string operations the code relies on: the `\s`
  white-space class, `trim`, `includes`, `replace`, `split`/`join` and number-to-text.

A `fetch` is never performed. Its outcome is a parameter, one of three:
- a parsed body;
- a response whose `ok` is false;
- a thrown value, which is either an `Error` with a message or something else.

A state-changing handler is a method on a class whose fields are the React state cells.
An asynchronous handler is split into its start (`BeginFetch`, `BeginRequest`) and its
end (`CompleteFetch`, `CompleteRequest`).

## Model

| member | source | states |
|---|---|---|
| ClimaTypes.Option.GetOr | app/climasynapse/ClimateMap.tsx:48-50 | a present value is returned, a missing one gives the default |
| Fetch.CaughtMessage | app/climasynapse/page.tsx:72-73 | an `Error`'s own message is shown; any other thrown value shows "An error occurred" |
| JsStrings.TrimStart | app/climasynapse/page.tsx:98 | the result is no longer than the text and does not start with white space |
| JsStrings.TrimStartRemovesSpace | app/climasynapse/page.tsx:98 | the result is a suffix of the text and the prefix removed is all white space |
| JsStrings.TrimEnd | app/climasynapse/page.tsx:98 | the result is no longer than the text and does not end with white space |
| JsStrings.TrimEndRemovesSpace | app/climasynapse/page.tsx:98 | the result is a prefix of the text and the suffix removed is all white space |
| JsStrings.TrimOffset | app/climasynapse/page.tsx:98 | the trimmed text starts within the text |
| JsStrings.Trim | app/climasynapse/page.tsx:98 | the result is no longer than the text and neither of its ends is white space |
| JsStrings.TrimIsSlice | app/climasynapse/page.tsx:98 | the trimmed text is the slice of the text at the trim offset, and everything cut on either side is white space |
| JsStrings.TrimFixesTrimmed | app/climasynapse/page.tsx:98 | `trim()` leaves a text unchanged exactly when neither of its ends is white space |
| JsStrings.TrimIdempotent | app/climasynapse/page.tsx:98-99 | trimming twice is trimming once |
| JsStrings.TrimEmptyIffAllSpace | app/climasynapse/page.tsx:119 | a text trims to "" exactly when it is all white space |
| JsStrings.TrimStartSkipsSpace | app/climasynapse/page.tsx:129 | white space in front of a text does not change its `trimStart()` |
| JsStrings.TrimSkipsLeadingSpace | app/climasynapse/page.tsx:129 | white space in front of a text does not change its `trim()` |
| JsStrings.AllSpaceConcat | app/climasynapse/page.tsx:129 | two all-white-space texts put together are all white space |
| JsStrings.TrimmedTextFirstOccurrence | app/climasynapse/page.tsx:126-129 | in `x + y`, the first occurrence of a non-empty `x.trim()` is where `trim()` found it in `x` |
| JsStrings.RemoveFromPrefix | app/climasynapse/page.tsx:129 | replacing by "" a first occurrence that lies within the prefix `x` cuts it out of `x` and keeps the rest |
| JsStrings.ReplaceEmptyIsIdentity | app/climasynapse/page.tsx:129 | replacing "" by "" leaves a text unchanged |
| JsStrings.IndexFrom | app/climasynapse/page.tsx:117 | the result is an occurrence at or after the start, with no earlier one; none means no occurrence at all |
| JsStrings.IndexOf | app/climasynapse/page.tsx:117 | the leftmost occurrence of the pattern, or none when it never occurs |
| JsStrings.ContainsWitness | app/climasynapse/page.tsx:117 | any occurrence makes `includes` true |
| JsStrings.ReplaceFirst | app/climasynapse/page.tsx:129 | only the leftmost occurrence is replaced, and text without the pattern is unchanged |
| JsStrings.RemoveDoubleStars | app/climasynapse/page.tsx:154 | removing every `**` never lengthens the text |
| JsStrings.RemoveDoubleStarsLeavesNone | app/climasynapse/page.tsx:154 | a title with every `**` removed contains no `**` |
| JsStrings.RemoveDoubleStarsRemovesOnlyStars | app/climasynapse/page.tsx:154 | the removal takes out stars only: every other character is kept, in order |
| JsStrings.RemoveDoubleStarsWithoutPairs | app/climasynapse/page.tsx:154 | a title without `**` is left unchanged |
| JsStrings.SplitChar | app/climasynapse/ForecastDashboard.tsx:62 | `split` always gives at least one piece |
| JsStrings.Join | app/climasynapse/ForecastDashboard.tsx:62 | joining no parts gives ""; otherwise the text starts with the first part |
| JsStrings.SplitJoinRoundTrip | app/climasynapse/ForecastDashboard.tsx:62 | joining the pieces with the separator gives back the text |
| JsStrings.SplitPiecesLackSeparator | app/climasynapse/ForecastDashboard.tsx:62 | no piece of a split holds the separator |
| JsStrings.SplitJoinReplaces | app/climasynapse/ForecastDashboard.tsx:62 | splitting on one character and joining with another replaces every occurrence |
| JsStrings.ReplaceChar | app/climasynapse/ForecastDashboard.tsx:62 | replacing a character keeps the length |
| JsStrings.SplitCharTail | app/climasynapse/ForecastDashboard.tsx:62 | the first piece ends at the first separator, and the rest are the pieces of what follows it |
| JsStrings.SplitCharNone | app/climasynapse/ForecastDashboard.tsx:62 | text without the separator is a single piece |
| JsStrings.DigitChar | app/climasynapse/ClimateMap.tsx:94 | a digit value becomes a character from '0' to '9' |
| JsStrings.NatText | app/climasynapse/ClimateMap.tsx:94 | a whole number's decimal text is one or more digits, with no leading zero except for 0 itself, and a single digit exactly below 10 |
| JsStrings.IntText | app/climasynapse/ClimateMap.tsx:94 | the decimal text starts with '-' exactly for a negative number |
| JsStrings.NatTextRoundTrip | app/climasynapse/ClimateMap.tsx:94 | reading back a number's decimal text gives the number |
| JsStrings.IntTextRoundTrip | app/climasynapse/ClimateMap.tsx:94-99 | reading back a signed number's decimal text gives the number |
| ClimateMap.ConditionOrNormal | app/climasynapse/ClimateMap.tsx:50 | a present, non-empty condition is kept; otherwise "Normal"; the result is never empty |
| ClimateMap.GetCurrentValues | app/climasynapse/ClimateMap.tsx:42-51 | no first hourly entry gives 0, 0, "Normal"; otherwise each reading comes from the first entry, with a missing one defaulting to 0, 0 or "Normal" |
| ClimateMap.CurrentValuesOnlyFromFirstEntry | app/climasynapse/ClimateMap.tsx:43-51 | two documents that agree on the first hourly entry, or both lack one, give the same current values |
| ClimateMap.BandIndex | app/climasynapse/ClimateMap.tsx:57-73 | the band number is at most the number of thresholds |
| ClimateMap.BandIndexMonotone | app/climasynapse/ClimateMap.tsx:57-73 | a larger reading is never in a lower band |
| ClimateMap.BandIndexOfFive | app/climasynapse/ClimateMap.tsx:57-64 | with five thresholds, the band is the number of thresholds strictly exceeded |
| ClimateMap.TemperatureColor | app/climasynapse/ClimateMap.tsx:57-64 | the colour is one of the six; red exactly above 30, blue exactly at or below 0 |
| ClimateMap.TemperatureColorIsBand | app/climasynapse/ClimateMap.tsx:57-64 | the colour is the palette entry of the band given by the strict thresholds 0/10/20/25/30 |
| ClimateMap.TemperatureBandMonotone | app/climasynapse/ClimateMap.tsx:57-64 | a warmer reading never gets a colder band |
| ClimateMap.PrecipitationColor | app/climasynapse/ClimateMap.tsx:66-73 | the colour is one of the six; navy exactly above 20, white exactly at or below 0 |
| ClimateMap.PrecipitationColorIsBand | app/climasynapse/ClimateMap.tsx:66-73 | the colour is the palette entry of the band given by the strict thresholds 0/1/5/10/20 |
| ClimateMap.PrecipitationBandMonotone | app/climasynapse/ClimateMap.tsx:66-73 | a wetter reading never gets a drier band |
| ClimateMap.ExtremeWeatherColor | app/climasynapse/ClimateMap.tsx:75-86 | green exactly for "Normal"; storm colour exactly for a non-Normal text with "storm"; hurricane colour exactly when "hurricane" or "tornado" and no "storm"; dark orange exactly when nothing matches |
| ClimateMap.ExtremeWeatherColorIsFirstRule | app/climasynapse/ClimateMap.tsx:75-86 | the colour is that of the first keyword rule, in order, whose keywords the condition mentions |
| ClimateMap.FirstRuleStep | app/climasynapse/ClimateMap.tsx:79-85 | the rule search takes a rule when the condition mentions it, and moves on otherwise |
| ClimateMap.MentionsAnyOf | app/climasynapse/ClimateMap.tsx:80-83 | a rule with one or two keywords is mentioned exactly when one of them occurs |
| ClimateMap.StormBeforeHurricane | app/climasynapse/ClimateMap.tsx:79-80 | a condition mentioning both "storm" and "hurricane" gets the storm colour |
| ClimateMap.GetMarkerProperties | app/climasynapse/ClimateMap.tsx:89-112 | an unknown map type gives exactly the red "N/A" marker |
| ClimateMap.MarkerColorMatchesLabel | app/climasynapse/ClimateMap.tsx:89-105 | the temperature and precipitation labels are the decimal text of the current value followed by "°C" or " mm", and reading the number back gives the value; the extreme-weather label is the condition; the colour is that of the labelled value |
| ForecastDashboard.AsHourly | app/climasynapse/ForecastDashboard.tsx:45 | every hourly entry is kept, in order |
| ForecastDashboard.AsDaily | app/climasynapse/ForecastDashboard.tsx:47-49 | every daily entry is kept, in order |
| ForecastDashboard.GetForecastData | app/climasynapse/ForecastDashboard.tsx:42-53 | short, medium and long give the hourly, medium and long series element for element; any other horizon gives an empty series |
| ForecastDashboard.DailyTickDropsFirstField | app/climasynapse/ForecastDashboard.tsx:60-63 | a date without '-' gives ""; otherwise the tick is everything after the first '-' with each later '-' turned into '/' |
| ForecastDashboard.DailyTickOfIsoDate | app/climasynapse/ForecastDashboard.tsx:62 | a date `year-month-day` (no '-' inside the fields) is labelled `month/day` |
| ForecastDashboard.TemperatureKey | app/climasynapse/ForecastDashboard.tsx:68 | "temperature" exactly for the short horizon, "avg_temperature" otherwise |
| ForecastDashboard.XAxisKey | app/climasynapse/ForecastDashboard.tsx:75 | "datetime" exactly for the short horizon, "date" otherwise |
| ForecastDashboard.XAxisKeyNamesPointField | app/climasynapse/ForecastDashboard.tsx:72-75 | every charted point is hourly exactly when the x axis reads "datetime", so the key names a field the point has |
| ForecastDashboard.ConditionData | app/climasynapse/ForecastDashboard.tsx:136-143 | one row per entry, in order, each keeping the whole entry; the flag is 1 exactly for a present, non-empty condition other than "Normal", and 0 otherwise; the condition type is the entry's condition, or "Normal" when it is missing or empty, so it is never empty and is "Normal" exactly when the flag is 0 |
| ForecastDashboard.ExtremeTickLabel | app/climasynapse/ForecastDashboard.tsx:158 | "Yes" exactly for 1, "No" for anything else |
| ForecastDashboard.RenderChartByType | app/climasynapse/ForecastDashboard.tsx:71-197 | temperature and unknown map types get the temperature chart, the other two their own; every chart reads the horizon's x key and series; the tick interval is 4 for the temperature and precipitation charts and 2 for the extreme-weather chart on the short horizon, and 0 otherwise |
| ForecastDashboard.Timeframe | app/climasynapse/ForecastDashboard.tsx:179 | "Hourly" exactly for short, "Daily" exactly for medium, "Long-Term" for everything else |
| ForecastDashboard.ChartTypeName | app/climasynapse/ForecastDashboard.tsx:180-182 | "Temperature" and "Precipitation" exactly for those layers, "Extreme Weather" for everything else |
| ForecastDashboard.ChartTitle | app/climasynapse/ForecastDashboard.tsx:178-184 | the title is the timeframe, a space, the chart type, " Forecast - " and the city, so it ends in " Forecast - " and the city |
| ForecastDashboard.ChartTitleDeterminesView | app/climasynapse/ForecastDashboard.tsx:178-184 | two views of one city with the same title agree on timeframe and chart type |
| ForecastDashboard.Description | app/climasynapse/ForecastDashboard.tsx:206-210 | one text per horizon, and the "Extended forecast" text for long and unknown horizons |
| Markdown.SpaceRun | app/climasynapse/page.tsx:119 | the greedy `\s*` never runs past the text |
| Markdown.SpaceRunIsMaximal | app/climasynapse/page.tsx:119 | the run is all white space and is followed by the end or by a character that is not |
| Markdown.NewlineRun | app/climasynapse/page.tsx:237 | the greedy `\n+` never runs past the text |
| Markdown.NewlineRunIsMaximal | app/climasynapse/page.tsx:237 | the run is all newlines and is followed by the end or by a character that is not a newline |
| Markdown.MatchLength | app/climasynapse/page.tsx:119 | a match is either absent or a non-empty prefix of the text |
| Markdown.FirstMatchFrom | app/climasynapse/page.tsx:119 | the match found is the leftmost at or after the start; none means no position matches |
| Markdown.NoMatchAt | app/climasynapse/page.tsx:119 | when no position of a range matches, none of its positions matches |
| Markdown.MatchExtends | app/climasynapse/page.tsx:119 | a match at the start of a text is still a match when more text follows |
| Markdown.PieceBeforeMatchHasNoMatch | app/climasynapse/page.tsx:119 | when no match starts before a position, no match starts anywhere in the text cut off there, even at its end |
| Markdown.NoMatchAnywhere | app/climasynapse/page.tsx:119 | when no match is found, no position of the text starts one |
| Markdown.SplitParts | app/climasynapse/page.tsx:119 | the result is the leftmost split: each piece runs from where the previous match ended up to the first position where the pattern matches, each separator is exactly the greedy match there, and once no separator is left the pattern matches nowhere in the rest |
| Markdown.LeftmostMatchUnique | app/climasynapse/page.tsx:119 | two positions that both start a match with no match before them are the same |
| Markdown.LeftmostSplitWithoutMatch | app/climasynapse/page.tsx:119 | a leftmost split without separators is the only leftmost split of its text |
| Markdown.LeftmostSplitFirstCut | app/climasynapse/page.tsx:119 | two leftmost splits of one text cut it at the same place, with the same separator |
| Markdown.SameCutSameSplit | app/climasynapse/page.tsx:119 | two splits that agree on the first piece, the first separator and everything after them are equal |
| Markdown.LeftmostSplitUnique | app/climasynapse/page.tsx:119 | a text has exactly one leftmost split, so `split` is determined by the text and the pattern |
| Markdown.LeftmostSplitRebuilds | app/climasynapse/page.tsx:119 | the pieces of a leftmost split, with the separators put back between them, rebuild the text |
| Markdown.LeftmostSplitPiecesHaveNoMatch | app/climasynapse/page.tsx:119 | no piece of a leftmost split contains a match of the pattern |
| Markdown.Split | app/climasynapse/page.tsx:119 | `split` gives at least one piece |
| Markdown.TrailingMarkerFrom | app/climasynapse/page.tsx:115 | the position found is the first one that starts `###` followed only by white space |
| Markdown.StripTrailingMarker | app/climasynapse/page.tsx:115 | the text is unchanged exactly when it has no `###` followed only by white space; otherwise the result is the prefix before the leftmost such `###` |
| Markdown.TrimKeepsTitleChars | app/climasynapse/page.tsx:126 | trimming a text without line breaks or '-' keeps it so |
| Markdown.TitleEnd | app/climasynapse/page.tsx:125 | the end found is a newline, carriage return or '-', with no line break or '-' before it |
| Markdown.TitleEndNoneMeansNoStop | app/climasynapse/page.tsx:125 | when no end is found, no newline, carriage return or '-' can be reached along the first line, so the title pattern does not match |
| Markdown.SectionTitle | app/climasynapse/page.tsx:125-126 | without a match the title is ""; with one it is the text before the end found, trimmed; either way it is trimmed and holds no line break and no '-' |
| Markdown.ContentWithoutTitle | app/climasynapse/page.tsx:125-129 | the result is trimmed; with no title it is the whole section trimmed; when the title pattern matches it is the rest of the section after the title's end, trimmed |
| Markdown.TitleRemoval | app/climasynapse/page.tsx:125-129 | removing the first occurrence of the trimmed title and trimming leaves the text after the title's end, trimmed |
| Markdown.TitleRemovalLeavesRest | app/climasynapse/page.tsx:126-129 | in `x + y`, removing the first occurrence of `x.trim()` and trimming gives `y.trim()` |
| Markdown.TrimmedNonEmpty | app/climasynapse/page.tsx:134-142 | every item is non-empty and has no white space at either end |
| Markdown.TrimmedNonEmptyKeepsText | app/climasynapse/page.tsx:134-142 | every piece that is not blank appears among the items, trimmed |
| Markdown.TrimmedNonEmptyAppend | app/climasynapse/page.tsx:134-142 | trimming and filtering two lists one after the other is trimming and filtering each |
| Markdown.TrimmedNonEmptyOne | app/climasynapse/page.tsx:134-142 | one piece gives nothing when it trims to "", otherwise the piece trimmed |
| Markdown.KeepNonBlank | app/climasynapse/page.tsx:119 | exactly the pieces that are not all white space are kept, untrimmed |
| Markdown.KeepNonBlankAppend | app/climasynapse/page.tsx:119 | filtering two lists one after the other is filtering each |
| Markdown.KeepNonBlankOne | app/climasynapse/page.tsx:119 | one piece gives nothing when it trims to "", otherwise the piece itself, untrimmed |
| Markdown.SectionItems | app/climasynapse/page.tsx:132-143 | under a `###` heading without "- " the items are the paragraph pieces trimmed and filtered; otherwise the bullet pieces trimmed and filtered; every item is non-empty and trimmed |
| Markdown.FindClosing | app/climasynapse/page.tsx:164-165 | the closing delimiter found occurs at the position returned, with no line break and no earlier occurrence between the start and it |
| Markdown.FindClosingNoneMeansNoClose | app/climasynapse/page.tsx:164-165 | when none is found, no closing delimiter occurs anywhere reachable along the line |
| Markdown.PhraseEnd | app/climasynapse/page.tsx:164-165 | a phrase found opens with the delimiter and closes within the text |
| Markdown.ReplaceDelimited | app/climasynapse/page.tsx:164-165 | text in which the delimiter's first character does not occur is left unchanged |
| Markdown.LacksIffNotIn | app/climasynapse/page.tsx:164-165 | the character-by-character absence test agrees with `!in` |
| Markdown.ReplaceDelimitedPlainStep | app/climasynapse/page.tsx:164-165 | a character that cannot open the delimiter is copied, and the scan goes on with the next one |
| Markdown.ReplaceDelimitedPhraseStep | app/climasynapse/page.tsx:164-165 | a phrase closed on its line is wrapped, and the scan goes on after its closing delimiter |
| Markdown.ReplaceDelimitedCopiesPlainText | app/climasynapse/page.tsx:164-165 | text without the delimiter's first character is copied as it is, whatever follows it: the replacement of `y + z` is `y` followed by the replacement of `z` |
| Markdown.PhraseCloses | app/climasynapse/page.tsx:164-165 | in `d + x + d + z`, with `x` on one line and no delimiter starting inside `x` (even one running into the closing delimiter), the lazy `(.*?)` closes right after `x` |
| Markdown.PhraseInside | app/climasynapse/page.tsx:164-165 | under the same conditions, no position inside the phrase starts a delimiter or ends a line |
| Markdown.DelimitedPhraseThenRest | app/climasynapse/page.tsx:164-165 | when `x` is on one line and no delimiter starts inside it, `d + x + d + z` becomes the opening text, `x`, the closing text, then the replacement of `z`; `x` may hold the delimiter's first character, such as a single star inside a `**` phrase |
| Markdown.ReplaceDelimitedWithoutDelimiter | app/climasynapse/page.tsx:164-165 | text without the delimiter passes through unchanged |
| Markdown.FormatInline | app/climasynapse/page.tsx:164-165 | text without '*' passes through both emphasis passes unchanged |
| Markdown.FindClosingReaches | app/climasynapse/page.tsx:164-165 | the lazy `(.*?)` reaches the first position where the closing delimiter starts, passing any character that starts no delimiter and ends no line |
| Markdown.NoFirstCharNoDelimiter | app/climasynapse/page.tsx:164-165 | text without the delimiter's first character starts no delimiter, not even one running into what follows |
| Markdown.NoStarNoOccurrence | app/climasynapse/page.tsx:165 | text without '*' has no starred delimiter |
| Markdown.DelimitedWraps | app/climasynapse/page.tsx:164-165 | a text that is exactly one delimited phrase on one line, with no delimiter starting inside it, is wrapped in the opening and closing tags |
| Markdown.PhraseBetweenPlainText | app/climasynapse/page.tsx:164-165 | a phrase free of the delimiter's first character, between two stretches of text also free of it, is wrapped and the text on both sides is copied |
| Markdown.FirstThenRest | app/climasynapse/page.tsx:164-165 | taking the first character off `y + z` and putting it back gives the same text |
| Markdown.StrongWraps | app/climasynapse/page.tsx:164-165 | `**x**` becomes `<strong>` in the section's text colour, untouched by the `<em>` pass |
| Markdown.SingleStarsStartNoDoubleStar | app/climasynapse/page.tsx:164-165 | in `a*b*c` followed by `**`, with star-free parts and `b`, `c` not empty, no `**` starts inside `a*b*c` |
| Markdown.OnOneLineStarred | app/climasynapse/page.tsx:164-165 | `a*b*c` is on one line when `a`, `b` and `c` are |
| Markdown.StrongOpenHasNoStar | app/climasynapse/page.tsx:164-165 | the opening `<strong>` tag holds no star when the colour class holds none |
| Markdown.StrongPassOverSingleStars | app/climasynapse/page.tsx:164-165 | the `<strong>` pass wraps `**a*b*c**` whole and keeps its single stars |
| Markdown.EmPassAfterStrong | app/climasynapse/page.tsx:164-165 | the `<em>` pass then turns `*b*` into `<em>b</em>` and copies everything else |
| Markdown.StrongHoldingEm | app/climasynapse/page.tsx:164-165 | nested emphasis `**a *b* c**` on one line becomes `<strong class="…">a <em>b</em> c</strong>` |
| Markdown.EmWraps | app/climasynapse/page.tsx:164-165 | `*x*` with x not empty passes the `<strong>` pass unchanged and becomes `<em>x</em>` |
| Markdown.SectionStyle | app/climasynapse/page.tsx:146-151 | the colours come from the four-entry palettes |
| Markdown.ParagraphStyle | app/climasynapse/page.tsx:240-260 | the colours come from the first three entries of the same palettes |
| Markdown.SectionStylesCycle | app/climasynapse/page.tsx:146-151 | section colours repeat every four sections, and neighbouring sections differ |
| Markdown.ParagraphStylesCycle | app/climasynapse/page.tsx:240-260 | paragraph colours repeat every three paragraphs, and neighbouring paragraphs differ |
| Markdown.BulletDotClass | app/climasynapse/page.tsx:159 | a colour class starting with `text-` gets that prefix turned into `bg-` |
| Markdown.BulletDotMatchesSectionColour | app/climasynapse/page.tsx:159 | the bullet dot is the section's text colour with the prefix `text-` turned into `bg-` |
| Markdown.BulletItems | app/climasynapse/page.tsx:157-165 | one bullet per item, in order, keeping its text, with the item's emphasis formatted in the section's text colour as its markup |
| Markdown.BuildSection | app/climasynapse/page.tsx:123-165 | the title is the section title with every `**` removed; the colours and the bullet dot are those of the section's position; the bullets are the items of the content without the title; the title holds no `**` and every bullet is non-empty and trimmed |
| Markdown.BuildSections | app/climasynapse/page.tsx:119-151 | the section at each position is the one built from the kept piece at that position, coloured by that position, and is well formed |
| Markdown.DigitRun | app/climasynapse/page.tsx:248 | the longest all-digit prefix |
| Markdown.IsNumberedItemMatchesPattern | app/climasynapse/page.tsx:248 | the greedy digit scan accepts a paragraph exactly when some run of one or more digits is followed by a dot and white space |
| Markdown.BuildParagraphs | app/climasynapse/page.tsx:246-260 | one paragraph per piece, coloured by its position, numbered exactly when it opens with digits, a dot and white space, and holding the piece with its emphasis formatted |
| Markdown.FormatParagraphText | app/climasynapse/page.tsx:230-260 | empty text gives nothing; otherwise the paragraphs are those built from the pieces between the `\n\n+` runs, one per piece, in order, with none filtered out |
| Markdown.ParseMarkdownContent | app/climasynapse/page.tsx:111-179 | nothing exactly when the content, without a trailing `###`, is empty; sections exactly when that text contains "### ", and then they are the `###` sections built from its non-blank pieces; otherwise its paragraphs, built from the pieces of that text between `\n\n+` runs |
| Markdown.FourHashesContainThree | app/climasynapse/page.tsx:177 | any text containing `#### ` contains `### ` |
| Markdown.BreakRunsSkip | app/climasynapse/page.tsx:237 | newline runs are counted only where `\n\n+` matches |
| Markdown.BreakRunsInsideRun | app/climasynapse/page.tsx:237 | the newlines of one run are counted once |
| Markdown.NoBreakNoRuns | app/climasynapse/page.tsx:237 | text where `\n\n+` matches nowhere has no run of two or more newlines |
| Markdown.BreakRunsAtMatch | app/climasynapse/page.tsx:237 | the leftmost `\n\n+` match counts as one run, and counting goes on after it |
| Markdown.BreakSplitCount | app/climasynapse/page.tsx:237 | a leftmost split on `\n\n+` has one piece more than the text has runs of two or more newlines |
| Markdown.ParagraphCount | app/climasynapse/page.tsx:237 | the number of paragraphs is the number of runs of two or more newlines plus one |
| Markdown.ParagraphsHaveNoBlankLine | app/climasynapse/page.tsx:237 | no paragraph contains two newlines in a row |
| ForecastPage.SubmittedLocation | app/climasynapse/page.tsx:96-101 | a non-blank input becomes the location, trimmed; a blank one leaves the location unchanged; a trimmed location stays trimmed |
| ForecastPage.ForecastPage.constructor | app/climasynapse/page.tsx:31-38 | the initial state: temperature layer, short horizon, no data, not loading, no error, empty location and input, not mounted |
| ForecastPage.ForecastPage.Mount | app/climasynapse/page.tsx:52-54 | the mount effect only sets the mounted flag; the location stays trimmed |
| ForecastPage.ForecastPage.EditLocationInput | app/climasynapse/page.tsx:311-312 | typing changes only the typed text; the location stays trimmed |
| ForecastPage.ForecastPage.Submit | app/climasynapse/page.tsx:96-101 | the location follows the submit rule; nothing else changes; the location stays trimmed |
| ForecastPage.ForecastPage.BeginFetch | app/climasynapse/page.tsx:60-61 | loading is set and the error is cleared; the location stays trimmed |
| ForecastPage.ForecastPage.CompleteFetch | app/climasynapse/page.tsx:63-76 | a document replaces the old one; a failed response sets "Failed to fetch data" and an exception its message, keeping the old document; loading ends in every case; the location stays trimmed |
| ForecastPage.ForecastPage.FetchWeatherData | app/climasynapse/page.tsx:56-77 | with no location nothing changes; otherwise the request's start and end as above; the location stays trimmed |
| ForecastPage.ForecastPage.ChangeMapLayer | app/climasynapse/page.tsx:80-85 | the layer is set, then a fetch runs only when a location is set; the location stays trimmed |
| ForecastPage.ForecastPage.ChangeScenario | app/climasynapse/page.tsx:88-93 | the horizon is set, then a fetch runs only when a location is set; the location stays trimmed |
| ForecastPage.ForecastPage.DependenciesChanged | app/climasynapse/page.tsx:104-108 | a fetch runs only once mounted and with a location; the location stays trimmed |
| ForecastPage.MainPanelView | app/climasynapse/page.tsx:392-421 | a prompt exactly without a location; a spinner exactly while loading; the map and charts exactly when a document is present, drawn from it with the selected layer and horizon |
| ForecastPage.RiskPanelView | app/climasynapse/page.tsx:447-475 | a prompt, a spinner, the formatted risks when there is risk text, else the alerts when there is at least one, else a "no data" note |
| ForecastPage.ImpactPanelView | app/climasynapse/page.tsx:489-505 | a prompt, a spinner, the formatted analysis when there is text, else a "no data" note; never alerts |
| Adaptnet.FieldNamed | hooks/useAdaptnet.ts:3-9 | a name maps to the field with that name, or to none when no field has it |
| Adaptnet.FieldNamesRoundTrip | hooks/useAdaptnet.ts:3-9 | every field is found by its own name |
| Adaptnet.Set | hooks/useAdaptnet.ts:31-34 | the field takes the value; every other field keeps its own |
| Adaptnet.FormsWithEqualFieldsAreEqual | hooks/useAdaptnet.ts:3-9 | a form is determined by its five fields |
| Adaptnet.SetProperties | hooks/useAdaptnet.ts:31-34 | writing back a field's value changes nothing; of two writes to one field the last wins |
| Adaptnet.SetCommutes | hooks/useAdaptnet.ts:31-34 | edits of two different fields commute |
| Adaptnet.Edited | hooks/useAdaptnet.ts:29-35 | the named field takes the value; every field with another name keeps its own |
| Adaptnet.Adaptnet.constructor | hooks/useAdaptnet.ts:18-27 | all five fields empty, not loading, no error, no result |
| Adaptnet.Adaptnet.HandleInputChange | hooks/useAdaptnet.ts:29-35 | the form becomes the edited form; loading, error and result are unchanged |
| Adaptnet.Adaptnet.BeginRequest | hooks/useAdaptnet.ts:39-40 | loading is set and the error cleared before the request |
| Adaptnet.Adaptnet.CompleteRequest | hooks/useAdaptnet.ts:42-67 | a plan replaces the old one; a failed response sets "Failed to generate adaptation plan" and an exception its message, keeping the old plan; loading ends in every case |
| Adaptnet.Adaptnet.GeneratePlan | hooks/useAdaptnet.ts:37-68 | start and end together: after success the error is clear and the plan is the response's |
| Adaptnet.Adaptnet.ResetForm | hooks/useAdaptnet.ts:70-80 | all five fields empty, no result and no error; loading is untouched |
| TechSupport.Toggled | app/dashboard/techsupport/page.tsx:99 | the click closes the question exactly when it is the open one, and opens it exactly when it is not |
| TechSupport.ToggleTwice | app/dashboard/techsupport/page.tsx:99 | two clicks on one question restore the state exactly when no question, or that one, was open; with another open, none is left open |
| TechSupport.ViewOf | app/dashboard/techsupport/page.tsx:105-115 | the answer is shown, and the chevron turned, exactly when the question's id is the open one |
| TechSupport.RenderFaqs | app/dashboard/techsupport/page.tsx:96-117 | one view per question, in order |
| TechSupport.AtMostOneExpanded | app/dashboard/techsupport/page.tsx:8 | with distinct ids, at most one answer is shown |
| TechSupport.PageShowsAtMostOneAnswer | app/dashboard/techsupport/page.tsx:17-28 | the page's two questions never show their answers together |
| TechSupport.TechSupportPage.constructor | app/dashboard/techsupport/page.tsx:7-8 | no ticket submitted and no question open |
| TechSupport.TechSupportPage.ToggleFaq | app/dashboard/techsupport/page.tsx:99 | the open question becomes the toggled one; the ticket flag is unchanged |
| TechSupport.TechSupportPage.SubmitTicket | app/dashboard/techsupport/page.tsx:10-11 | the ticket flag is raised; the open question is unchanged |

## Behaviour worth noting

- Empty conditions (`ClimateMap.ConditionOrNormal`, `ForecastDashboard.ConditionData`): the
  code defaults with `||`, so an empty condition counts as "Normal" just like a missing
  one (ClimateMap.tsx:50, ForecastDashboard.tsx:137). The flag is 1 only for a present,
  non-empty condition other than "Normal".
- `TechSupport.ToggleTwice`: two clicks on one question restore the accordion only when no
  question, or that same one, was open before. With another question open, the first
  click moves the accordion and the second closes it. This is ordinary accordion
  behaviour, not a defect.
- `Markdown.ParseMarkdownContent`: the `####` branch (page.tsx:177-226) is modelled as
  written but is never taken, because any text containing "#### " contains "### "
  (`Markdown.FourHashesContainThree`). Sections are always `###` sections.

## Left out

- Network requests: URLs, `encodeURIComponent` and request bodies are not modelled. Each
  `fetch` is reduced to its outcome. A body that parses but does not have the expected
  shape is not modelled.
- Overlapping requests: the handlers and the dependency effect can start overlapping
  requests. Their interleaving and the order in which they finish are not modelled. Each
  request is its start followed by its end.
- The stale closure: `handleMapLayerChange` and `handleForecastScenarioChange` run
  `fetchWeatherData` with the previous layer and horizon. Those values only enter the
  URL, which is not modelled.
- ClimateMap.GetCurrentValues: readings are whole numbers (`int`). Fractional readings,
  `NaN` (which `|| 0` also turns into 0), and JavaScript's number-to-text for fractions are
  not modelled. The colour functions only compare, so whole numbers exercise every band
  boundary.
- The hourly tick and the tooltips format a `Date` in the host locale
  (ForecastDashboard.tsx:58-59, 84). They are not modelled.
- Rendering is not modelled: JSX, CSS classes beyond the colour palettes, recharts,
  react-leaflet, the map popup, `dangerouslySetInnerHTML`, and the "nothing until
  mounted" page guard.
- JsStrings.IntText: JavaScript writes integers of 1e21 or more in exponent form; the model
  always writes plain digits. Map readings are far below that.
- Markdown.FormatInline: the lemmas cover star-free text, a phrase closed on its line with
  no delimiter starting inside it (which allows single stars inside a `**` phrase), any
  sequence of these, and the nesting `**a *b* c**`. Two cases are modelled by the same
  left-to-right scan, but no lemma describes what they produce: an opening star with no
  closing one on its line, and stars placed so that a delimiter starts inside a phrase,
  such as `***x***`.
- Adaptnet.Adaptnet.HandleInputChange: JavaScript would add an extra property to the form
  object for a name outside the five fields. The model keeps the five fields unchanged
  and drops that extra property.
- The `parseFloat` conversions in the plan request body are not modelled; they only feed
  the request.
- The Blob download of the dataset (page.tsx:524-535) and the three-second `setTimeout`
  that clears the ticket flag are not modelled.
- The remaining pages of the site are not part of this model: the landing page, the
  other product pages, the dashboard pages other than technical support, the sidebar and
  the footer. They are static content or hold only a selected-tab string.
- The policy simulator of the sociomap page (JavaScript `parseInt` and float division) is
  not part of this model.

# isd-stations: activity index and station-list parser

A Dafny model of the two algorithmic parts of the isd-stations project.
The project draws the European weather stations of the NOAA Integrated
Surface Database (ISD) on a map, year by year.

- **The activity index** (`plotWeatherStations.js`):
  - Station records are grouped by start year and by end year.
  - An END year of 2015 is treated as "still running".
  - Two sweeps over the years 1900..2015 build the per-year station count and the per-year list of active stations.
  - The two interaction rules that move the year cursor are modelled too: the clamp that turns a mouse position into a year, and the start/stop animation.
- **The station-list parser** (`parse_data/parse.py`):
  - It finds the column starts in the header line of the fixed-width station history file.
  - It cuts each following line into stripped fields.
  - It keeps the lines whose country code is in the European FIPS list.

Files:

- `wrappers.dfy`: `Option`.
- `stations.dfy` (module `Stations`) holds the executable-style definitions:
  - the station record and year extraction;
  - `nestByProperty`, the 2015 sentinel and `processData`;
  - the two sweeps, as functions of the year: `RunningCount` and `RunningList`.
- `sweep_properties.dfy` (module `SweepProperties`):
  - a per-station reference definition of "active in year y" (`ActiveIn`);
  - proofs that the sweeps agree with it: membership, order, the closed form of the count, and when the count equals the list length.
- `interaction.dfy` (module `Interaction`): `mouseToYear` and the animation state machine.
- `isd_parse.dfy` (module `IsdParse`):
  - Python's `str.find`, slicing and `str.strip`;
  - `get_start_of_columns`, `parse_row` and the FIPS filter;
  - the script's two loops.

Stations are identified by their index in the input sequence. The
JavaScript filter compares objects by identity, and two records with the
same USAF id are different stations to it.

A click on the animation button does not always flip the running flag. After a finished run the cursor stays at 2016, so a start click sets the flag and the immediate step clears it again (`Interaction.ToggleAnimation`).

Nothing in the code keeps the yearly counts non-negative:
- `SweepProperties.CountCanBeNegative` exhibits a record whose END precedes its BEGIN. This gives a count of -1.
- `SweepProperties.CountMatchesLength` states the data condition under which the count is the list length.

## Model

| member | source | states |
|---|---|---|
| Stations.YearOfDate | plotWeatherStations.js:15-16 | The year is defined exactly when the first four characters of the date are digits; it is then below 10^n for a prefix of n digits and, written back with n digits (leading zeros included), gives the prefix, so it is the number those digits spell; an empty date gives 0, as unary plus does |
| Stations.DecimalValueDigits | plotWeatherStations.js:15-16 | A digit string is recovered from its value by writing the value back with as many digits, so the year read from a date determines its digits |
| Stations.YearOfDateRoundTrip | plotWeatherStations.js:15-16 | A date beginning with a four-digit year, followed by anything, reads back as that year |
| Stations.RowToStation | plotWeatherStations.js:10-17 | A CSV row becomes a station exactly when both dates yield a year; id and name are USAF and STATION NAME, the years are those of BEGIN and END |
| Stations.NestMembers | plotWeatherStations.js:319-326 | The group of key k holds exactly the indices of the stations whose property equals k, in increasing input order |
| Stations.NestByProperty | plotWeatherStations.js:319-326 | Every key present in the grouping has a non-empty group, and every key's group (empty when absent) is the subsequence of stations with that key |
| Stations.EndedMap | plotWeatherStations.js:21-24 | The 2015 end group is present and empty; every other end group is the stations with that END year |
| Stations.GetNumberOfStations | plotWeatherStations.js:328-338 | The count map has an entry for every year 1900..2015 and for no other year |
| Stations.NumberOfStationsRecurrence | plotWeatherStations.js:331-336 | Each year's count is the previous year's (0 before 1900) plus the stations started in that year minus those ended in it |
| Stations.RemoveEndedMember | plotWeatherStations.js:350-355 | The filter keeps a station exactly when it is in the current list and not among the year's enders |
| Stations.GetActiveStations | plotWeatherStations.js:340-360 | The list map has an entry for every year 1900..2015 and for no other year |
| Stations.ActiveStationsRecurrence | plotWeatherStations.js:343-357 | Each year's list is the previous year's (empty before 1900) with the year's starters appended and its enders filtered out |
| Stations.ProcessData | plotWeatherStations.js:20-31 | Both lookups handed to the renderers cover exactly the years 1900..2015 |
| SweepProperties.ActiveStep | plotWeatherStations.js:343-357 | Per station, one sweep year: active in y iff (active in y-1 or starting in y) and not ending in y, an END of 2015 not counting |
| SweepProperties.GroupedBuckets | plotWeatherStations.js:21-24 | The start groups and the sentinel-adjusted end groups hold exactly the stations starting (ending, unless 2015) in each year, in input order |
| SweepProperties.RunningListMember | plotWeatherStations.js:340-360 | For any correct grouping, a station is in the running list after year y iff it is active in y by the per-station definition |
| SweepProperties.RunningListOrdered | plotWeatherStations.js:343-357 | The running list is ordered by start year, ties in input order |
| SweepProperties.RunningLength | plotWeatherStations.js:328-360 | For any correct grouping of stations that all start in 1900 or later and no later than they end, the running count after year y equals the running list's length |
| SweepProperties.ActiveMembership | plotWeatherStations.js:340-360 | Station i is in the list of year y iff it started in 1900..y and has not been filtered out by y |
| SweepProperties.ActiveOrder | plotWeatherStations.js:343-357 | Every year's list is ordered by start year then input position, and holds no station twice |
| SweepProperties.ActiveInterval | plotWeatherStations.js:343-357 | A station with 1900 <= start < end != 2015 is listed in year y iff start <= y < end |
| SweepProperties.OngoingStation | plotWeatherStations.js:21-29 | A station with END 2015 is listed in year y iff 1900 <= start <= y: the sentinel keeps it to the end |
| SweepProperties.EndBeforeStartNeverRemoved | plotWeatherStations.js:349-356 | A station whose END precedes its start is never filtered out: listed in y iff 1900 <= start <= y |
| SweepProperties.NeverActive | plotWeatherStations.js:343-356 | A station starting before 1900 or after 2015, or ending (not in 2015) the year it starts, is in no year's list |
| SweepProperties.RunningCountClosedForm | plotWeatherStations.js:328-338 | After year y the running count is the number of starts in 1900..y minus the number of ends in 1900..min(y, 2014) |
| SweepProperties.NumberOfStationsClosedForm | plotWeatherStations.js:328-338 | The same closed form for the count map returned by processData |
| SweepProperties.CountMatchesLength | plotWeatherStations.js:328-360 | If every station has 1900 <= start <= end, each year's count equals the length of that year's list |
| SweepProperties.CountCanBeNegative | plotWeatherStations.js:331-336 | One station starting in 1960 and ending in 1950 makes the 1950 count -1 |
| Interaction.MouseToYear | plotWeatherStations.js:312-315 | The clamped year lies in 1900..2015, equals the input when that is in range, and is 1900 below and 2015 above |
| Interaction.MouseToYearIdempotent | plotWeatherStations.js:314 | Clamping twice is clamping once |
| Interaction.MouseToYearMonotone | plotWeatherStations.js:314 | The clamp never reverses the order of two mouse years |
| Interaction.AnimationStep | plotWeatherStations.js:114-126 | A step reschedules and shows the year iff running with year <= 2015, and then advances the year; running past 2015 it clears the flag; stopped it changes nothing |
| Interaction.StoppedStepIsIdle | plotWeatherStations.js:114-116 | A timer step while stopped shows nothing, schedules nothing and changes no state |
| Interaction.ToggleAnimation | plotWeatherStations.js:66-76 | After a click the flag is set iff it was clear and the cursor is at most 2015; the year is shown, and the next step scheduled, exactly then; the cursor advances by one exactly when a year is shown |
| Interaction.StopCancelsPendingStep | plotWeatherStations.js:66-70 | After a stop, the step that was already scheduled does nothing |
| Interaction.SetYear | plotWeatherStations.js:59-62 | The slider writes the cursor the animation reads: while running, the next timer call shows the slider's year if it is at most 2015 and otherwise stops the animation; while stopped the flag stays clear, the next timer call shows nothing, and a click on Start shows the slider's year (if at most 2015) |
| Interaction.AnimationRun | plotWeatherStations.js:113-126 | Started at year y, n chained steps show y, y+1, ... in order; within 2016-y steps it is still running at y+n, beyond that it has stopped at 2016 after showing y..2015 |
| Interaction.FullAnimation | plotWeatherStations.js:113-126 | From page load, a click shows 1900 and the following steps show 1901..2015 in order, then stop with the cursor at 2016 |
| IsdParse.Find | parse_data/parse.py:13-15 | find returns the first index at which the caption occurs, or -1 exactly when it occurs nowhere |
| IsdParse.FindPrefixNoLater | parse_data/parse.py:16-17 | A caption that is a prefix of another is found no later than it |
| IsdParse.StSearchHitsStationName | parse_data/parse.py:16-17 | Searching "ST" stops at or before "STATION NAME", which is why the ST start is fixed by hand |
| IsdParse.GetStartOfColumns | parse_data/parse.py:12-18 | One start per caption, in caption order; start 4 is 48; every other start is that caption's find result; IndexError (None) exactly when there are at most four captions |
| IsdParse.FirstCaptionAtZero | parse_data/parse.py:13-15 | On a header beginning with the first caption, that column starts at 0 |
| IsdParse.PyIndex | parse_data/parse.py:27 | A slice bound is normalised as Python does: negative counts from the end, then clamped to 0..len |
| IsdParse.Slice | parse_data/parse.py:27 | The slice has length max(0, end - start) of the normalised bounds and holds the characters from the normalised start on |
| IsdParse.StripTrimmed | parse_data/parse.py:27 | strip's result neither starts nor ends with whitespace |
| IsdParse.StripDecomposes | parse_data/parse.py:27 | strip's result is a contiguous piece of its input with only whitespace before and after it |
| IsdParse.StripPadded | parse_data/parse.py:27 | strip of a trimmed value surrounded by whitespace is the value |
| IsdParse.StripIdempotent | parse_data/parse.py:27 | Stripping twice is stripping once |
| IsdParse.ParseRow | parse_data/parse.py:20-28 | One field per column start |
| IsdParse.ParseRowField | parse_data/parse.py:22-27 | Field k is line[start_k : end_k] stripped, with end_k the next start or -1, and carries no surrounding whitespace |
| IsdParse.ParseRowColumns | parse_data/parse.py:22-27 | With in-bounds ordered starts, field k is the text from start k to start k+1, and the last field stops one before the line's end |
| IsdParse.LastCharacterIgnored | parse_data/parse.py:24-27 | When every column start lies within the line (each start between 0 and the length of the line without its final character, so no start is -1 from a missing caption or past the final character), the final character of the line (its newline) never influences any field |
| IsdParse.ShortLineReachesLastCharacter | parse_data/parse.py:24-27 | A column start beyond the end of a short line lets the preceding field take in the final character |
| IsdParse.FixedWidthRoundTrip | parse_data/parse.py:20-28 | A line of trimmed values padded to fixed widths, plus a newline, parses back into exactly those values at the layout's column starts |
| IsdParse.ReadFips | parse_data/parse.py:4-5 | One country code per line of the list file |
| IsdParse.ReadFipsCode | parse_data/parse.py:4-5 | A code written with surrounding whitespace is on the list as the bare code |
| IsdParse.KeepEuropean | parse_data/parse.py:36-40 | The filter returns at most one row per input line |
| IsdParse.KeptRowAt | parse_data/parse.py:36-40 | Every kept row has one field per column start and a country code that is on the list |
| IsdParse.KeepEuropeanSingle | parse_data/parse.py:37-40 | A single line is kept, parsed, iff its country field is on the list |
| IsdParse.KeepEuropeanAppend | parse_data/parse.py:36-40 | Filtering two stretches of the file one after the other is filtering them in sequence: file order is kept |
| IsdParse.KeepEuropeanComplete | parse_data/parse.py:36-40 | Every line whose country code is listed appears, parsed, in the output |
| IsdParse.BlankFipsLineKeepsBlankCountry | parse_data/parse.py:4-5 | A whitespace-only line of the list file admits stations with a blank country column |
| IsdParse.IsHeaderMeaning | parse_data/parse.py:32 | A line is the header iff it has at least four characters and they are "USAF" |
| IsdParse.FirstHeader | parse_data/parse.py:30-34 | The header line found is a header line with none before it; None means no line is one |
| IsdParse.FindHeaderLine | parse_data/parse.py:31-34 | The first loop stops at the first header line, or runs off the end when there is none |
| IsdParse.FilterRows | parse_data/parse.py:36-40 | The second loop builds the filtered rows, each complete and listed, in file order |
| IsdParse.ParseIsdHistory | parse_data/parse.py:30-40 | The table is the column names followed by the listed rows after the first header line; without a header line it is the column names alone |

## Left out

- Rendering is not modelled: the map, circles, line plot, tooltips, zoom, the Mercator projection, `x.invert` and the chart's scales. All of this is d3 view code or floating point.
- `Interaction.MouseToYear` takes the already rounded year. The inverse scale and `Math.round` are floating point.
- The slider stores `this.value`, which is a string, in the year cursor. `Interaction.SetYear` takes an integer; JavaScript's string-to-number coercion in `year <= 2015` and `year++` is not modelled.
- `setTimeout` is modelled only as "another step is scheduled" (`rescheduled`). Interleavings of clicks with pending timer steps are not modelled, apart from `Interaction.StopCancelsPendingStep`, which covers the single pending step after a stop.
- `Stations.YearOfDate` does not model unary plus on a prefix that is not all digits (signs, blanks, letters, giving NaN or another number). It yields None, and such a row produces no station.
- The loading layers are not modelled: `d3.csv` loading, the station coordinates, and the file reading and CSV writing of the parser script.
  - The script's inputs are the lines of the history file, each with its final newline, and the lines of the FIPS file.
  - Its output is the table passed to `csv.writer`.
- `IsdParse.ParseRow` takes the line explicitly. The script reads the loop variable `row` as a global.
- Python `str.find` and slicing are modelled on `string` (`seq<char>`), and `str.strip` with Python 2's ASCII whitespace set. No text encoding is modelled.
- IsdParse.LastCharacterIgnored: promised only when every column start lies within the line. A caption that `find` does not locate gives a start of -1, which Python reads from the last character. A data line shorter than the header's column starts can also carry its final character into a field (`IsdParse.ShortLineReachesLastCharacter`).
- `IsdParse.KeepEuropean` requires at least four column starts. Otherwise `parsed_row[3]` would raise IndexError, which the script does not handle; the starts always number eleven there.

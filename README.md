# EaseMyTrip UI test suite: page-object logic

The repository is a Selenium/Cucumber test suite for the EaseMyTrip travel
site. Its page objects drive the cab pages (airport transfer, outstation,
hourly rental) and the hotel, activity and gift-card pages. Its utilities
read test data from Excel, write results to Excel, JSON and text files, and
retry failed scenarios.

This project models the decisions those classes make once the browser is
replaced by what it shows:

- Every list of web elements is the sequence of its texts. A click is the
  index of the clicked element.
- The month-view date picker is a `Calendar.DatePicker` object. It holds the
  displayed (year, month) page, and Next/Prev move that page in place.
- An Excel sheet is a sparse map of cells held by the `ExcelWrite.Writer`
  object. A JSON file is a `JsonDataWriter.JsonFile` object whose state is the
  parsed document: an insertion-ordered member list, as in Gson's
  `JsonObject`. A text file is a `TextFileWriter.TextFile` holding the entries
  written to it.
- Java exceptions that escape an operation are `Err`/`Fail` values of
  `Common.Failure`.

Form of the model:

- The page objects and utilities that update state step by step are methods
  with loops and invariants. Each method is proved against a function or
  predicate that says what the source promises.
- The label rules, regular expressions and the time-text splitting are
  functions with lemmas.
- `JavaText` holds the `java.lang.String` operations the code relies on:
  `trim`, ASCII `equalsIgnoreCase`, `startsWith`/`contains`, `split` with its
  dropped trailing empty strings, and `String.valueOf(int)`. It also holds
  XPath `normalize-space`.

## Model

| member | source | states |
|---|---|---|
| Airport.Scan | src/test/java/cabsObjectRepo/Airport.java:124-140 | the suggestion loop meets `IsBestMatch`: it clicks the first text equal to the target. Otherwise it clicks a text that starts with or contains the target and has least length, the earliest among equals (strict `<`). Otherwise it clicks nothing |
| Airport.BestMatch | src/test/java/cabsObjectRepo/Airport.java:117-151 | the best-match rule over the normalised suggestions and the normalised target; a clicked suggestion contains the normalised target |
| Airport.BestMatchIgnoresTargetCaseAndPadding | src/test/java/cabsObjectRepo/Airport.java:129 | two targets that differ only in case or surrounding white space click the same suggestion |
| Airport.ExactBeatsEarlierFuzzy | src/test/java/cabsObjectRepo/Airport.java:130-139 | in any list, the first suggestion equal to the target after normalisation is clicked, whatever shorter or equal fuzzy matches come before it |
| Airport.SelectSrcVal | src/test/java/cabsObjectRepo/Airport.java:117-151 | selectSrcVal is the best-match rule for the source |
| Airport.SelectDestVal | src/test/java/cabsObjectRepo/Airport.java:166-200 | selectDestVal is the same rule for the destination |
| Airport.PagingStop | src/test/java/cabsObjectRepo/Airport.java:231-238 | the page where `currMonth < month \|\| currYear < year` first fails: the target itself when it is not before the displayed page, otherwise a different page at most 11 Next clicks ahead |
| Airport.KeepsPagingBeforeStop | src/test/java/cabsObjectRepo/Airport.java:231-238 | every page before that stop satisfies the loop condition, so the loop does not stop early |
| Airport.SelectDate | src/test/java/cabsObjectRepo/Airport.java:211-246 | the loop ends on PagingStop after as many Next clicks as months lie between. The day cell labelled with the day of month is clicked only when the target page is displayed. A date that does not parse clicks nothing |
| Airport.AirportTimeFields | src/test/java/cabsObjectRepo/Airport.java:254-261 | the split gives hour, minute and meridian exactly when there are three parts and the hour is neither empty nor "0" (else IndexOutOfBounds); minute and meridian are kept, and an hour without a leading '0' is kept |
| Airport.AirportTimeOfClock | src/test/java/cabsObjectRepo/Airport.java:254-261 | for "hh:mm AM" text the hour loses its leading zero, and the minute and meridian are kept |
| Airport.SelectTime | src/test/java/cabsObjectRepo/Airport.java:253-272 | the meridian selector is clicked for exactly "AM"/"PM". The first "<h> Hr." hour option is clicked, then the first "<mm> Min." minute option. A missing part throws IndexOutOfBounds and a missing option throws NoSuchElement |
| Airport.WriteValues | src/test/java/cabsObjectRepo/Airport.java:290-292 | the i-th value is written to row i+1 of the column, for as many rows as the sheet has |
| Airport.DisplayNames | src/test/java/cabsObjectRepo/Airport.java:285-294 | the headers "Cab Names"/"Cab Prices" go to (0,0)/(0,1), then the names go down column 0, and the call fails on an empty list |
| Airport.DisplayNamesLayout | src/test/java/cabsObjectRepo/Airport.java:286-292 | after displayNames, (0,0), (0,1) and (i+1,0) hold the headers and the i-th name, and every other cell is unchanged |
| Airport.DisplayPrices | src/test/java/cabsObjectRepo/Airport.java:303-310 | an empty list fails the assertion and writes nothing. Otherwise the i-th price goes to (i+1,1) |
| Airport.DisplayPrice | src/test/java/cabsObjectRepo/Airport.java:331-336 | the label "Least Sedan Price" goes to (0,2) and the price to (1,2), and the price is returned |
| Outstation.FromField | src/test/java/cabsObjectRepo/Outstation.java:131-151 | the first suggestion whose raw text starts with the city is clicked, and none when no suggestion does |
| Outstation.ToField | src/test/java/cabsObjectRepo/Outstation.java:158-178 | the same rule for the destination city |
| Selection.CityMatchIsPrefix | src/test/java/cabsObjectRepo/Outstation.java:140-147 | `startsWith(c) && contains(c)` selects the same suggestion as `startsWith(c)` |
| Outstation.NavigateTo | src/test/java/cabsObjectRepo/Outstation.java:200-210 | Next is clicked while the page is before the target and Prev while it is after. The loop stops exactly on the target after \|month distance\| clicks, when the target is selectable |
| Outstation.UnreachableTargetSpins | src/test/java/cabsObjectRepo/Outstation.java:205-209 | with a target before the earliest page, the swallowed Prev failure keeps the loop on the earliest page forever without reaching the target |
| Outstation.PagesBackwards | src/test/java/cabsObjectRepo/Outstation.java:205-209 | until the earliest page is reached, each Prev moves back one month |
| Outstation.PickDate | src/test/java/cabsObjectRepo/Outstation.java:185-214 | the picker ends on the target page; the clicked day cell is the first whose normalised text is the day of month without leading zero; NoSuchElement when none |
| Outstation.PickupDate | src/test/java/cabsObjectRepo/Outstation.java:185-214 | pickupDate is PickDate |
| Outstation.ReturnDate | src/test/java/cabsObjectRepo/Outstation.java:221-251 | returnDate uses the same navigation and day rule |
| Outstation.DayCellByLabel | src/test/java/cabsObjectRepo/Outstation.java:213 | a cell showing the day label with surrounding white space matches that day |
| Outstation.OutstationTimeFields | src/test/java/cabsObjectRepo/Outstation.java:259-262 | the split succeeds exactly when it gives at least three parts |
| Outstation.OutstationTimeOfClock | src/test/java/cabsObjectRepo/Outstation.java:259-262 | hours and minutes are used verbatim, a leading zero included |
| Outstation.PickTime | src/test/java/cabsObjectRepo/Outstation.java:258-273 | the meridian selector is clicked for exactly "AM"/"PM". Then the first hour and minute options whose normalised text equals the part are clicked |
| Outstation.PickupTime | src/test/java/cabsObjectRepo/Outstation.java:258-273 | pickupTime is PickTime over the pickup lists |
| Outstation.ReturnTime | src/test/java/cabsObjectRepo/Outstation.java:287-302 | returnTime is PickTime over the return lists |
| Outstation.Recorded | src/test/java/cabsObjectRepo/Outstation.java:329-341 | the recorded pairs are the trimmed name and price of each block having both, in block order |
| Outstation.RecordedStep | src/test/java/cabsObjectRepo/Outstation.java:331-340 | a block missing a field adds nothing, and a complete block adds its pair |
| Outstation.Results | src/test/java/cabsObjectRepo/Outstation.java:317-345 | the SUV, options and price assertions come first. Then, under the scenario key, every recorded pair is written in order |
| Outstation.RecordBlocks | src/test/java/cabsObjectRepo/Outstation.java:329-342 | the loop's file state is `RecordAll`, the fold of scenario writes, over Recorded(blocks) |
| Outstation.RecordAllLastPriceWins | src/test/java/cabsObjectRepo/Outstation.java:339 | for a name recorded twice, the file keeps the last price |
| Outstation.RecordAllUnwritable | src/test/java/cabsObjectRepo/Outstation.java:339 | when the file cannot take scenario writes, recording changes nothing |
| Hourly.AdvanceToLabels | src/test/java/cabsObjectRepo/Hourly.java:154-161 | only Next is clicked, and the loop ends at the first page whose month and year labels both equal the inputs ignoring case |
| Hourly.LabelsOfLaterPage | src/test/java/cabsObjectRepo/Hourly.java:154-161 | with the labels of a later page, the loop stops exactly there after the month distance |
| Hourly.PageMatchesOnlyItself | src/test/java/cabsObjectRepo/Hourly.java:155-159 | a page matches another page's labels only when it is that page |
| Hourly.HourlyTimeFields | src/test/java/cabsObjectRepo/Hourly.java:170-173 | the split succeeds exactly when there are two space-separated parts and the first has two ":"-parts; the meridian is the second space part; otherwise IndexOutOfBounds |
| Hourly.HourlyTimeOfClock | src/test/java/cabsObjectRepo/Hourly.java:170-173 | "h:m mer" splits on " " then on ":" into hour, minute and meridian |
| Hourly.HourlyMeridian | src/test/java/cabsObjectRepo/Hourly.java:175-179 | "AM" in any case selects AM, and anything else selects PM |
| Hourly.FirstTokenWhere | src/test/java/cabsObjectRepo/Hourly.java:181-193 | the first option whose first space-separated token equals the wanted text ignoring case is clicked; an option that splits to nothing throws IndexOutOfBounds |
| Hourly.FirstTokenOfLabel | src/test/java/cabsObjectRepo/Hourly.java:182 | the first token of "word rest" is the word |
| Hourly.SearchCab | src/test/java/cabsObjectRepo/Hourly.java:127-206 | city by exact ignore-case match, calendar by labels, day by ignore-case match, then meridian, hour, minute and rental hours as above |
| Activities.SelectMonthAndYear | src/test/java/objectRepositories/Activities.java:115-123 | Next is clicked exactly as many times as there are pages before the first one whose trimmed title equals the target ignoring case |
| Activities.TitleOfLaterPage | src/test/java/objectRepositories/Activities.java:116-122 | for the title of a later page in any case, the loop stops on that page after the month distance |
| Activities.OnlyItsPageMatches | src/test/java/objectRepositories/Activities.java:118 | a title in any case matches its own page and no other |
| Calendar.PageTitleIsTrimmed | src/test/java/objectRepositories/Activities.java:117 | trimming a widget title changes nothing |
| Activities.SelectDate | src/test/java/objectRepositories/Activities.java:130-137 | the first date cell equal to the target, case-sensitive and untrimmed, is its first position in the list |
| Activities.SelectCity | src/test/java/objectRepositories/Activities.java:161-176 | the first suggestion starting with the partial name is clicked |
| Activities.CityReport | src/test/java/objectRepositories/Activities.java:203-212 | the header, then the first min(5, n) names in result order |
| Activities.CityReportIgnoresTail | src/test/java/objectRepositories/Activities.java:207-209 | names after the fifth never reach the file |
| Activities.PrintCityNames | src/test/java/objectRepositories/Activities.java:201-213 | an empty list fails the assertion and leaves the file alone. Otherwise the file is cleared and then holds CityReport |
| TextFileWriter.TextFile.WriteToTextFile | src/test/java/utilities/TextFileWriter.java:21-39 | the content is appended as one more entry |
| TextFileWriter.TextFile.ClearFile | src/test/java/utilities/TextFileWriter.java:48-57 | the file is emptied |
| Hotels.SelectingCity | src/test/java/objectRepositories/Hotels.java:116-134 | the first suggestion that starts with `place` and contains `city` is clicked |
| Hotels.PlaceNamingCityIsPrefixScan | src/test/java/objectRepositories/Hotels.java:124 | when `place` itself contains `city`, the rule is the first-prefix rule |
| Hotels.PickMonthAndDate | src/test/java/objectRepositories/Hotels.java:147-159 | the month scan clicks IndexOf(months, month) and the date scan IndexOf(dates, date), independently of each other |
| Hotels.CheckInDate | src/test/java/objectRepositories/Hotels.java:143-160 | the first month option equal to ciMonth is clicked, then the first date equal to ciDate, whatever the month scan found |
| Hotels.CheckOutDate | src/test/java/objectRepositories/Hotels.java:168-183 | the same two selections, then Done is always clicked |
| Selection.IndexOfIsFirst | src/test/java/objectRepositories/Hotels.java:148-158 | the clicked position holds the text and no earlier one does, and nothing is clicked exactly when the text is absent |
| Selection.FirstEqualIsIndexOf | src/test/java/objectRepositories/Hotels.java:147-159 | the click-and-break scan for an equal text clicks that first position |
| Hotels.HotelNameAndPrice | src/test/java/objectRepositories/Hotels.java:200-209 | the four assertions are made in order. Then exactly one name→price entry is written at the JSON root |
| GiftCards.EmailPatternIsEmail | src/test/java/objectRepositories/GiftCards.java:151 | the email regex matches exactly when the split at the first '@' and the last '.' fits it. The local part is [A-Za-z0-9+_.-]+ and the domain is [A-Za-z0-9.-]+. The last part is '.' followed by 2 or more letters |
| GiftCards.GiftCardForm.ValidateEmail | src/test/java/objectRepositories/GiftCards.java:147-156 | the flag is reset, and raised exactly when the address is rejected and T&C was clicked. The assertion fails when T&C is hidden |
| GiftCards.GiftCardForm.ValidateMobileNum | src/test/java/objectRepositories/GiftCards.java:165-175 | the flag is raised exactly when the input is not ten ASCII digits; T&C is clicked either way |
| GiftCards.GiftCardForm.Validation | src/test/java/objectRepositories/GiftCards.java:208-211 | the email check, then the mobile check |
| GiftCards.Status | src/test/java/objectRepositories/GiftCards.java:192-198 | "Valid" in green exactly when neither flag is raised, else "Invalid" in red |
| GiftCards.StatusCellOnly | src/test/java/objectRepositories/GiftCards.java:193-197 | the status cell holds the status text with its fill, and no other cell changes |
| GiftCards.GiftCardForm.ScreenShots | src/test/java/objectRepositories/GiftCards.java:184-199 | one screenshot per raised flag, Email first, then the status cell at (rowIndex, 6) |
| RetryAnalyzer.RetryStep | src/test/java/retry/RetryAnalyzer.java:26-33 | true only for a failure with fewer than 2 retries granted, and then the count grows by 1 |
| RetryAnalyzer.RetryAnalyzer.Retry | src/test/java/retry/RetryAnalyzer.java:13-33 | retry is RetryStep on the field, which never exceeds maxRetryCount = 2 |
| RetryAnalyzer.AnswersGrantAtMostTwo | src/test/java/retry/RetryAnalyzer.java:13-32 | over any sequence of calls exactly min(2 − count, failures) answer true, so at most two do |
| RetryAnalyzer.SuccessNeverRetried | src/test/java/retry/RetryAnalyzer.java:27 | a successful result always answers false |
| ExcelUtils.GetData | src/test/java/utilities/ExcelUtils.java:44-80 | the nested loops compute the function `ReadSheet`: rows 1..lastRowNum, skipped rows left out, and key → (header → value) put in order |
| ExcelUtils.ReadRow | src/test/java/utilities/ExcelUtils.java:61-74 | the inner loop computes the function `RowMap`: it puts trimmed header(j) → trimmed value(j) for j ≥ 1, with "" for a missing, blank or unreadable cell |
| ExcelUtils.ReadEntry | src/test/java/utilities/ExcelUtils.java:53-76 | a row that is missing or has a missing or blank first cell is skipped. Otherwise its key is the trimmed column-0 text |
| ExcelUtils.KeyText | src/test/java/utilities/ExcelUtils.java:59 | the key formatting throws exactly for an unreadable key cell |
| ExcelUtils.ReadSheetKeys | src/test/java/utilities/ExcelUtils.java:52-77 | the key set is exactly the set of keys of rows 1.. that are read; row 0 is never a key |
| ExcelUtils.ReadSheetAppendRow | src/test/java/utilities/ExcelUtils.java:52-77 | a skipped row changes nothing, and a later row with a duplicate key replaces the earlier one |
| ExcelUtils.RowMapKeys | src/test/java/utilities/ExcelUtils.java:61-62 | a row's keys are the header texts of columns 1 onward; column 0 adds none |
| ExcelUtils.RowMapAppendCell | src/test/java/utilities/ExcelUtils.java:73 | a later column with a duplicate header overwrites the earlier value |
| ExcelWrite.Writer.constructor | src/test/java/utilities/ExcelWrite.java:32-41 | the named sheet is opened, and a new empty sheet is created when there is none of that name |
| ExcelWrite.Writer.SetCellValue | src/test/java/utilities/ExcelWrite.java:50-60 | (r,c) holds v and keeps its style; no other cell changes. A missing row or cell is created; an index out of range fails |
| ExcelWrite.ValueIsRead | src/test/java/utilities/ExcelWrite.java:58 | reading the written cell gives the value |
| ExcelWrite.WithValueFrame | src/test/java/utilities/ExcelWrite.java:50-60 | setCellValue changes no other cell |
| ExcelWrite.Writer.FillCellColor | src/test/java/utilities/ExcelWrite.java:89-103 | only the fill of (r,c) changes, and a missing cell is created blank |
| ExcelWrite.FillKeepsValues | src/test/java/utilities/ExcelWrite.java:89-103 | a fill never changes a value, and changes no other cell |
| ExcelWrite.Writer.FillCellGreen | src/test/java/utilities/ExcelWrite.java:68-70 | the fill is LIGHT_GREEN |
| ExcelWrite.Writer.FillCellRed | src/test/java/utilities/ExcelWrite.java:78-80 | the fill is RED |
| ExcelWrite.WriteColumnAt | src/test/java/cabsObjectRepo/Airport.java:290-291 | after a column of writes, row first+k holds the k-th value |
| ExcelWrite.WriteColumnFrame | src/test/java/cabsObjectRepo/Airport.java:290-291 | a column of writes leaves cells outside its rows unchanged |
| JsonDataWriter.SimpleWrite | src/test/java/utilities/JsonDataWriter.java:29-49 | a missing file starts from {}. An empty file cannot become an object (IllegalState) |
| JsonDataWriter.SimpleWriteSets | src/test/java/utilities/JsonDataWriter.java:34-38 | the write succeeds exactly when the root is an object or the file is missing. Then root[key] = value and other root keys are unchanged |
| JsonDataWriter.SimpleWriteLastWins | src/test/java/utilities/JsonDataWriter.java:38 | a second write of a key replaces the first, and repeating a write changes nothing |
| JsonDataWriter.ScenarioWrite | src/test/java/utilities/JsonDataWriter.java:60-90 | a missing or empty file starts from {} |
| JsonDataWriter.ScenarioWriteSets | src/test/java/utilities/JsonDataWriter.java:75-79 | afterwards root[scenario][key] = value. The block's other keys, the other blocks and the root keys are unchanged, and a missing block is created |
| JsonDataWriter.ScenarioWriteLastWins | src/test/java/utilities/JsonDataWriter.java:78 | last write wins under a scenario block, and repeating a write changes nothing |
| JsonDataWriter.ScenarioWriteOrder | src/test/java/utilities/JsonDataWriter.java:75-79 | the block's keys keep first-write order, and a new key goes at the end |
| JsonDataWriter.GetPut | src/test/java/utilities/JsonDataWriter.java:38 | after addProperty (the function `Put`), the key reads the new value and other keys read as before |
| JsonDataWriter.KeysPut | src/test/java/utilities/JsonDataWriter.java:38 | addProperty keeps the order of existing keys and appends a new one |
| JsonDataWriter.JsonFile.WriteSimpleData | src/test/java/utilities/JsonDataWriter.java:29-49 | the file becomes SimpleWrite's result, and on an exception it is unchanged |
| JsonDataWriter.JsonFile.WriteSimpleDataWithScenario | src/test/java/utilities/JsonDataWriter.java:60-90 | the file becomes ScenarioWrite's result. A missing file is created first |
| Calendar.DatePicker.Next | src/test/java/cabsObjectRepo/Outstation.java:203 | Next shows the following month |
| Calendar.DatePicker.Prev | src/test/java/cabsObjectRepo/Outstation.java:206 | Prev shows the previous month, or fails on the earliest page and leaves it shown |
| Calendar.DayLabel | src/test/java/cabsObjectRepo/Outstation.java:188 | the day label is one or two digits with no leading zero |
| Calendar.PageTitleInjective | src/test/java/objectRepositories/Activities.java:118 | two pages whose titles are equal ignoring case are the same page |
| JavaText.TrimIdempotent | src/test/java/cabsObjectRepo/Airport.java:126-129 | trimming twice is trimming once |
| JavaText.EqualsIgnoreCaseIsLowerEquality | src/test/java/cabsObjectRepo/Hourly.java:146 | equalsIgnoreCase agrees with comparing lower-cased texts |
| JavaText.IntToStringInjective | src/test/java/cabsObjectRepo/Hourly.java:156 | different years have different labels |
| JavaText.NormalizeSpaceKeepsNormalized | src/test/java/cabsObjectRepo/Outstation.java:213 | normalize-space leaves text that is already normalised unchanged |
| TimePicker.SplitTimeOfParts | src/test/java/cabsObjectRepo/Airport.java:254 | `split("[: ]")` of "h:m mer" gives the three parts |
| TimePicker.MeridianOf | src/test/java/cabsObjectRepo/Airport.java:263-267 | AM is chosen exactly for "AM" and PM exactly for "PM" |
| Common.PutAllLastWins | src/test/java/utilities/ExcelUtils.java:73-76 | HashMap puts: the last put of a key decides its value |

## Left out

- Waiting, staleness retries and page loading are not modelled. The `WebDriverWait` conditions and the `while (true) { try … catch (StaleElementReferenceException) {} }` wrappers are replaced by one successful read of each list. In Outstation.results, a wait for an empty list would time out before the assertion; the model reports the assertion failure.
- Plain clicks, typing, JavaScript scrolling and clicks, and `Actions` hovers are not modelled. They are side effects with no decision in them.
- Date parsing is not modelled. `SimpleDateFormat`, `LocalDate.parse` and `YearMonth` parsing are replaced by a parsed `Calendar.Date`, with `None` for text that does not parse.
- Case folding covers ASCII letters only. `toLowerCase` and `equalsIgnoreCase` are not modelled for letters outside ASCII.
- Hourly.AdvanceToLabels: the source loop clicks Next until the labels match. When no later page matches, it never ends. The model takes a ghost `bound` with a matching page as a precondition, so it covers only the runs that end.
- Activities.SelectMonthAndYear: the same precondition, for the same reason.
- Hourly.SearchCab: the same precondition, for the same reason.
- Outstation.NavigateTo requires a target at or after the earliest selectable page. Before that page, the source spins forever; Outstation.UnreachableTargetSpins proves this on the step function instead.
- Airport.BestMatch normalises the whole list before the scan, where the source normalises each text inside the loop. Normalising has no side effect, so the click is the same.
- The date picker has no latest page: Next is assumed always available. In the source, a missing or disabled Next would throw in Hourly, Activities and Outstation, and in Airport the catch-all handler would end `selectDate` without clicking a day.
- XPath locators built from input text are not modelled: a quote character in the text would break the locator.
- Files are not modelled: opening, saving and formatting Excel and JSON files, `ExcelWrite.save`, the JSON pretty-printing, and I/O exceptions. The TextFileWriter IOException that is caught and printed is also left out.
- Screenshots are not modelled: the PNG files and their timestamps. The model records only the file-name prefix of each screenshot.
- POI's checks on sheet names are not modelled.
- Gson's parsing of a malformed file is one `Malformed` content that throws JsonSyntax. Which texts are malformed is not modelled.
- ExcelUtils.GetData: `formatCellValue` is not modelled. A cell's formatted text is given as `Formatted(text)`, and a cell it would throw on is `Unreadable`.
- RetryAnalyzer.RetryAnalyzer.Retry: the console message is not modelled. TestNG may create one analyzer per test; the model covers the calls on one instance.
- Console output (`System.out.println`) is not modelled anywhere.

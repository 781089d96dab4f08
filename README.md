# Compass and clinic availability checkers, modelled in Dafny

Two browser scripts are modelled here. Each watches a booking site and reports whether a target day has free slots:

- the Compass checker (`200.Projects/Compass/main.py`) for the Compass ticket calendar of the National Museum of Nature and Science;
- the clinic checker (`200.Projects/Clinic/clinic_main.py`) for a clinic's reservation calendar.

The model has seven modules:

- **`Text`**: the string operations the scripts use. These are Python's `in`, `strip` and `lstrip("0")`, `split(...)[0]`, single-character `replace`, `str(int)`, and the word test behind the regular-expression `\b`.
- **`CheckDate`**: `get_check_date`, which both scripts share.
  - The setting is parsed against the exact language `strptime("%Y-%m-%d")` accepts. That means four digits, a month `1[0-2]|0[1-9]|[1-9]`, and a day `3[01]|[12]\d|0[1-9]|[1-9]| [1-9]`, then a check that the date is a valid Gregorian date in years 1 to 9999.
  - The fallback is the day after a `now` parameter, formatted as `%Y-%m-%d`.
- **`MonthLocator`**: the target-month labels, the leftmost `(\d{4})年(\d{1,2})月` match, the `get_calendar_text` fallback chain, and one round of the month-navigation loop (`Decide`, `RoundOf`). It also holds the whole bounded loop as a function over an abstract page (`Navigate`).
- **`CellClassifier`**: finding and classifying the target day's cell.
  - The `data-date` lookup, exact before substring.
  - The marker and CSS-class tests of the direct path.
  - The heuristic scan loop with its `continue`/`break` structure.
  - The four-way verdict.
- **`CompassChecker`**: `check_availability` as methods on a `CompassPage` object. The page's view changes when a button is clicked, and the object records every click and whether the browser was closed. `LocateMonth` is the 24-round `for` loop; `CheckAvailability` runs the whole function.
- **`Notification`**: the routing in the Compass checker's `main`, from the settings and the verdict to the mail and LINE message sent.
- **`ClinicChecker`**: `check_clinic_availability` as a method over a `ClinicBrowser` object.
  - It covers the `M/D` short date, the day-cell filter `^D$|M/D` and the mark test.
  - It keeps the fixed order of the early exits: an action that raises (counting the buttons and cells included), the overseas block, the missing button, no matching cell.
  - The `finally` clause that closes the browser is kept.
  - It also covers the LINE message the clinic's `main` sends.

The browser is represented by values:

- what a page shows is a `View`, made of the calendar text probes, body text, button counts and elements, plus a `respond` function that gives the view after a click;
- which browser actions raise is a map from step to error text.

Wherever the source has a loop that modifies state, the model is a method proved against a pure function. Lemmas about that function state what the source promises.

The model follows the code where its comments differ from it. The comments at `main.py:174` and `main.py:198` describe the target day's cell as the element holding both the day number and a ○, × or △ mark. Yet `main.py:213-217` also select a candidate that holds the day number with no mark at all, and stop the scan there. `CellClassifier.Examine` follows lines 213-217.

## Model

| member | source | states |
|---|---|---|
| Text.ContainsIff | 200.Projects/Compass/main.py:201-202 | Python's `sub in s` holds exactly when `sub` occurs at some index of `s` |
| Text.StripLeftMeaning | 200.Projects/Compass/main.py:26 | `lstrip` removes exactly the leading run of Unicode white space: what remains does not start with white space |
| Text.StripRightMeaning | 200.Projects/Compass/main.py:26 | `rstrip` removes exactly the trailing run of white space |
| Text.NatToStringDecimal | 200.Projects/Compass/main.py:113 | `str(n)` is a non-empty digit string whose decimal value is `n`, with no leading zero unless `n` is 0 |
| Text.CanonicalDecimal | 200.Projects/Compass/main.py:109-113 | a digit string without a leading zero is what `str(int(s))` gives back |
| CheckDate.NextDayIsSuccessor | 200.Projects/Compass/main.py:33 | `now + 1 day` exists unless `now` is 9999-12-31, is a valid date, and has the next proleptic Gregorian ordinal (month and year rollover, leap years) |
| CheckDate.ParseIsoSound | 200.Projects/Compass/main.py:29 | a string `strptime` accepts is its year, month and day fields joined by `-`, each of the accepted form, denoting a valid date |
| CheckDate.ParseIsoComplete | 200.Projects/Compass/main.py:29 | every well-formed date string is accepted with exactly those fields |
| CheckDate.FormatFields | 200.Projects/Compass/main.py:33 | `strftime("%Y-%m-%d")` writes four, two and two zero-padded digits, each an accepted field with the date's value |
| CheckDate.FormatParses | 200.Projects/Compass/main.py:33 | what `strftime` writes, `strptime` reads back as the same date |
| CheckDate.GetCheckDate | 200.Projects/Compass/main.py:24-34 | the result is always a well-formed valid date; a stripped setting that `strptime` accepts is returned unchanged; the clinic checker's copy (`clinic_main.py:12-19`) is the same function |
| CheckDate.KeepsSettingIffValid | 200.Projects/Compass/main.py:26-34 | except on 9999-12-31, the stripped setting is returned exactly when it is a valid `%Y-%m-%d` date, and the result is always a valid date |
| CheckDate.DefaultIsTomorrow | 200.Projects/Compass/main.py:33-34 | without a valid setting the result is the day after `now`, zero-padded and parsing back to itself; it exists except on the last representable day |
| MonthLocator.LabelForms | 200.Projects/Compass/main.py:108-113 | the two labels `YYYY年MM月` and `YYYY年M月` coincide exactly when the month is written without a leading zero |
| MonthLocator.DayNumberIsDay | 200.Projects/Compass/main.py:111 | `day_part.lstrip("0") or "0"` is `str` of the day of the month; the space-padded form `" 5"` is kept as written |
| MonthLocator.FirstLabelIsLeftmost | 200.Projects/Compass/main.py:136-138 | the year and month read are those of the leftmost match of `(\d{4})年(\d{1,2})月` |
| MonthLocator.NoLabelAnywhere | 200.Projects/Compass/main.py:136-137 | there is no match exactly when no index starts one |
| MonthLocator.CalendarText | 200.Projects/Compass/main.py:115-127 | the first selector with an element gives that element's text, a space and the body text; when none has one, the body text alone; a selector that raises is passed over |
| MonthLocator.DecideBehind | 200.Projects/Compass/main.py:139-150 | behind the target: press next button 1 when there are two or more, button 0 when there is one, and stop without a click when there are none; when counting the buttons raises, the handler at lines 165-167 stops the loop |
| MonthLocator.DecideAhead | 200.Projects/Compass/main.py:151-155 | ahead of the target: press the first prev button, or wait without stopping when there is none; when counting the buttons raises, the loop stops |
| MonthLocator.DecideSameMonth | 200.Projects/Compass/main.py:156-157 | when the label shown is the target month, the loop stops |
| MonthLocator.DecideNoLabel | 200.Projects/Compass/main.py:158-167 | with no label, press the last `>`/`›` button, or stop when there is none; when counting the buttons raises, the loop stops |
| MonthLocator.DecidePressesExistingButton | 200.Projects/Compass/main.py:141-161 | every press names an index below the count of matching buttons, and only a count that did not raise |
| MonthLocator.RoundOf | 200.Projects/Compass/main.py:132-167 | a round clicks at most once, and reports the target reached only on a page showing it |
| MonthLocator.NavigateBounded | 200.Projects/Compass/main.py:129-169 | whatever the page does, the loop ends with at most `fuel` clicks; a "reached" stop means the final page shows a target label |
| MonthLocator.AtMostMaxClicks | 200.Projects/Compass/main.py:130-131 | the navigation presses at most 24 buttons |
| MonthLocator.ShownTargetNoClick | 200.Projects/Compass/main.py:132-134 | a page already showing either label is left as it is, with no click |
| MonthLocator.AheadWithoutPrevSpins | 200.Projects/Compass/main.py:151-155 | ahead of the target with no prev button, the loop does not stop: it runs out its rounds without clicking |
| CompassChecker.CompassPage.Press | 200.Projects/Compass/main.py:144-161 | a click is recorded; the view becomes the site's response, or stays when the click raises |
| CompassChecker.CompassPage.Close | 200.Projects/Compass/main.py:246 | `browser.close()` marks the page closed and changes nothing else |
| CompassChecker.NavigationRound | 200.Projects/Compass/main.py:132-167 | one round's effect on the page is the one `RoundOf` specifies: same stop, same clicks, same next view |
| CompassChecker.ResumingRound | 200.Projects/Compass/main.py:131-169 | one pass of the loop appends one round's clicks; when it stops, the loop's whole result is reached, and otherwise what remains is `Navigate` with one round less from the new view |
| CompassChecker.LocateMonth | 200.Projects/Compass/main.py:129-169 | with `rounds` set to `max_clicks`, the final view, the clicks made and the stop reason are those of `Navigate` with that many rounds from the initial view |
| CellClassifier.FindFirst | 200.Projects/Compass/main.py:182-184 | `query_selector` returns the first element, in document order, that matches |
| CellClassifier.DirectPrefersExact | 200.Projects/Compass/main.py:182-184 | an exact `data-date` match is taken even after a substring match; a substring match only when there is no exact one; nothing only when no `data-date` contains the date |
| CellClassifier.AnyMark | 200.Projects/Compass/main.py:220-227 | the marker loops find a marker exactly when some marker occurs in the text |
| CellClassifier.ClassifyDirect | 200.Projects/Compass/main.py:228-244 | the direct-path statements compute `DirectFlags`; they raise (None) on an unreadable cell, and on a class attribute that cannot be read when no unavailable marker ended the tests first |
| CellClassifier.DirectFlagsExclusive | 200.Projects/Compass/main.py:228-244 | the direct path raises exactly when the text cannot be read, or the class cannot be read after a text without an unavailable marker; otherwise the two flags are never both set, an unavailable marker or a class keyword makes the cell unavailable, and it is available exactly when an available marker is present and neither an unavailable marker nor a class keyword is |
| CellClassifier.ExamineMeaning | 200.Projects/Compass/main.py:192-217 | a candidate is skipped unless readable, non-empty, at most 50 characters and holding the day as a token; it is selected with its flags when it has a marker, skipped when it has a dash, and otherwise selected with no flags, since the fallback test always holds after the token test |
| CellClassifier.ScanSelectsFirst | 200.Projects/Compass/main.py:191-217 | the scan selects the first candidate the loop does not skip, with that round's flags; it selects nothing, with both flags clear, exactly when it skips them all |
| CellClassifier.HeuristicScan | 200.Projects/Compass/main.py:186-227 | the loop with its `continue`s and `break`s, and the marker check after it, computes `Scan` |
| CellClassifier.Candidates | 200.Projects/Compass/main.py:188-190 | the candidates are exactly the page's elements that match the selector |
| CellClassifier.CandidatesAppend | 200.Projects/Compass/main.py:188-190 | `query_selector_all` keeps document order and multiplicity: the candidates of two consecutive parts of the page are those of the first part followed by those of the second |
| CellClassifier.CandidatesSingle | 200.Projects/Compass/main.py:188-190 | a single element is a candidate exactly once when it matches the selector, and not at all otherwise |
| CellClassifier.DirectPathDecides | 200.Projects/Compass/main.py:182-186 | when some `data-date` holds the date, the verdict is that cell's direct classification whatever the other elements hold; otherwise it is the heuristic scan's |
| CellClassifier.ReportPrecedence | 200.Projects/Compass/main.py:249-255 | unavailable wins over available; a located cell without markers and no cell at all give their own negative messages; an unreadable direct cell raises |
| CellClassifier.AsWrittenAgrees | 200.Projects/Compass/main.py:191-217 | where the scan as written does not raise at line 211, it agrees with the model's scan |
| CellClassifier.Line211Raises | 200.Projects/Compass/main.py:211 | a lone "15" cell before "15 ○" makes the scan as written raise, while the model selects the "15" cell |
| CompassChecker.CheckAvailability | 200.Projects/Compass/main.py:87-255 | the verdict is `CompassOutcome` of the initial view; the browser is closed on every path that returns; a page that does not load sees no click; on a page that loads, the final view and the clicks made are those of `Navigate` with 24 rounds, so at most 24 clicks are added |
| CompassChecker.LoadFailureIsNegative | 200.Projects/Compass/main.py:94-103 | a timeout or another load error gives a negative verdict with its message |
| CompassChecker.RaisesOnlyOnUnreadableCell | 200.Projects/Compass/main.py:228-235 | an exception escapes exactly when the directly found cell of the final page cannot be read, or holds no unavailable marker and its class attribute cannot be read |
| CompassChecker.AvailableNeedsMarker | 200.Projects/Compass/main.py:181-252 | "available" is reported only when some element of the page the navigation ended on has an available marker and no unavailable marker |
| Notification.CompassDetail | 200.Projects/Compass/main.py:87-274 | `main` learns of slots only when the page loaded and some element of the page the navigation ended on is readable with an available marker and no unavailable one, and then the detail is the availability message for the date; a timeout or a failed load gives its own message with no slots |
| Notification.SilentUnlessNotifying | 200.Projects/Compass/main.py:265-277 | nothing is sent or printed about channels unless there are slots or `LINE_NOTIFY_ALWAYS` is 1, true or yes in any case |
| Notification.MailNeedsUserAndPassword | 200.Projects/Compass/main.py:262-289 | when notifying, a mail goes out exactly when the Gmail user and password are set; it goes to `NOTIFY_EMAIL`, or to the user when that is empty |
| Notification.LineNeedsTokenAndUser | 200.Projects/Compass/main.py:295-302 | when notifying, LINE is used exactly when the token and user id are set; the "not configured" notice is printed exactly when neither channel is used |
| Notification.MessageContents | 200.Projects/Compass/main.py:279-302 | the body is the heading, the detail and the URL. The subject is the prefix and the detail's whole first line, so it holds no line break and the detail goes on only after a line break. The LINE message carries that body to the stripped token and user id, whether or not a mail is sent |
| ClinicChecker.ShortDateParts | 200.Projects/Clinic/clinic_main.py:80-81 | the short date splits at its `/` into the decimal month and day, neither with a leading zero |
| ClinicChecker.FirstDayCell | 200.Projects/Clinic/clinic_main.py:83-84 | the cell taken is the first whose text is the day number or contains `M/D` |
| ClinicChecker.ShortDateUnanchored | 200.Projects/Clinic/clinic_main.py:83 | the `M/D` alternative is a substring test: any text holding the short date matches, whatever surrounds it. So for every target in January or February, the cell of the same day in November or December (`11/D`, `12/D`) matches too |
| ClinicChecker.ReplaceKeepsOccurrences | 200.Projects/Clinic/clinic_main.py:85 | replacing newlines by spaces keeps every occurrence of a string that has neither character |
| ClinicChecker.MarkTestIgnoresNewlines | 200.Projects/Clinic/clinic_main.py:85-89 | the mark test gives the same answer with or without the newline replacement |
| ClinicChecker.ClinicBrowser.Perform | 200.Projects/Clinic/clinic_main.py:51-85 | a browser action is recorded and raises exactly when the site makes it fail |
| ClinicChecker.ClinicBrowser.Close | 200.Projects/Clinic/clinic_main.py:97-98 | `browser.close()` marks the session closed |
| ClinicChecker.Land | 200.Projects/Clinic/clinic_main.py:51-71 | opening, reading the body and counting the 再診(婦人科) items end the session exactly as `Landing` says, and perform its actions |
| ClinicChecker.Book | 200.Projects/Clinic/clinic_main.py:67-92 | the two clicks, the waits and the day cell give `Booking`'s result and perform its actions |
| ClinicChecker.Attempt | 200.Projects/Clinic/clinic_main.py:49-96 | the `try` block with its early returns gives `Clinic`'s result and performs its actions in order |
| ClinicChecker.CheckClinicAvailability | 200.Projects/Clinic/clinic_main.py:33-98 | the result is `Clinic`'s, and the browser is closed however the attempt ends |
| ClinicChecker.StepsInOrder | 200.Projects/Clinic/clinic_main.py:49-96 | the actions run in the fixed order up to an early exit; only the last one may have raised, and then its error text is the message |
| ClinicChecker.BookingInOrder | 200.Projects/Clinic/clinic_main.py:67-96 | from the first click on, the actions run in their fixed order; only the last may have raised, and then its error text is the message |
| ClinicChecker.BlockedBeforeAnyClick | 200.Projects/Clinic/clinic_main.py:58-60 | a body with the overseas notice ends the session before any click, with the proxy message |
| ClinicChecker.MissingButton | 200.Projects/Clinic/clinic_main.py:64-71 | without the 再診(婦人科) item, the result is "ボタンが見つかりませんでした" after opening, reading the page and counting the items |
| ClinicChecker.AvailableIff | 200.Projects/Clinic/clinic_main.py:83-92 | success exactly when no action raises, the body is not blocked, the button exists and the first matching cell passes the mark test; every other case, including no matching cell, is negative |
| ClinicChecker.NoticeOnlyOnSuccess | 200.Projects/Clinic/clinic_main.py:100-110 | a LINE message is pushed exactly when no action raised, the body is not blocked, the button exists, the first matching cell is marked and the stripped token and user id are both set; it carries the heading, the availability message for the date and the URL |

## Findings

| source | as written | input that shows it | evidently intended | confidence | as-written member | corrected member |
|---|---|---|---|---|---|---|
| 200.Projects/Compass/main.py:211 | the debug log reads `cell_text`, which is assigned only later in the function, so the first marker-less candidate that holds the day raises UnboundLocalError, and lines 213-217 never run | candidates "15" and then "15 ○" for day 15: the scan raises and `main` reports "エラー: …" | the log is a no-op; the dash test and the fallback selection of 213-217 run | high (not executed) | CellClassifier.Line211Raises | CellClassifier.ScanSelectsFirst |

`CellClassifier.ScanAsWritten` models the loop as written, with a round that raises at line 211. `CellClassifier.Scan` models it as evidently intended, and everything else in the model uses `Scan`. `CellClassifier.AsWrittenAgrees` shows the two agree wherever the version as written does not raise.

## Left out

- The browser itself is left out: launch, contexts, user agents, the proxy, screenshots, settle waits and logging. Pages are abstract values, and the matching buttons are represented by their counts.
- The locators' own semantics are left out. This covers how Playwright matches `has_text`, normalises white space and chooses between `inner_text` and text content; each element has one text.
- Some exceptions are not modelled. In the Compass checker these are:
  - a failing `chromium.launch`, context or page creation (lines 88-93);
  - a failing `wait_for_timeout` outside the loop's `try` (lines 105, 168, 171);
  - a failing body read in `get_calendar_text` (line 127);
  - a failing `query_selector` or `query_selector_all` (lines 182-190);
  - a failing re-read of the selected cell after the scan (line 219);
  - a failing `browser.close()` (lines 99, 102 and 246).

  Each of these escapes `check_availability`, and `main` reports it as "エラー: …". The modelled exceptions are the button counts and clicks inside the loop, the cell's text and its class attribute.
- In the clinic checker the unmodelled exceptions are a failing launch, which is outside its `try`, a failing screenshot in its `except` clause, and a failing `browser.close()` in its `finally` clause (`clinic_main.py:98`), which escapes `check_clinic_availability`. Every action inside the `try` is a `ClinicStep`. Each wait is folded into the step it follows, because a failing wait has the same effect as a failing step.
- The wall clock is the parameter `now`.
- A 9999-12-31 `now` raises OverflowError, which `CheckDate.GetCheckDate` returns as None. The crash of `main` that follows is not modelled.
- `send_line_message`, `send_gmail` and `get_line_user_id.py` are network clients and a webhook server, so only the routing decision is modelled. Whether a send succeeds only changes what is printed.
- Printed output is not modelled, including the target-date line and the success and failure lines of the senders.
- CheckDate.ParseIso: reads ASCII digits only. Python's `\d` in `strptime` also accepts other Unicode decimal digits.
- MonthLocator.LabelAt: the month label is recognised with ASCII digits only. Python's `\d` also accepts other decimal digits.
- Text.IsWordChar: approximates the Unicode `\w` behind `\b`. It covers ASCII letters, digits and underscore, Latin-1 letters, kana, the common CJK ranges and the full-width letters and digits.
- Text.AsciiLower: lower-cases ASCII only. For `LINE_NOTIFY_ALWAYS` this decides the same, because no other character lower-cases to a letter of "true" or "yes". For CSS class names that use non-ASCII capitals, the keyword test can differ.
- CheckDate.Format: always pads the year to four digits. For years below 1000 the platform's `strftime` may not.
- ClinicChecker.DayMatches: treats `^D$` as "the whole text is the day number", not as the JavaScript regex on Playwright's normalised text.
- ClinicChecker.ClinicSite: a missing 次へ button is represented as a failure of the `PressNext` step, with the click timeout's error text. Counting the 再診(婦人科) items and the day cells can raise; these are the `CountRevisit` and `CountDay` steps.

- HeuristicScan: the marker check after the loop uses the same text as the loop, because reading an element's text twice is taken to give the same text.

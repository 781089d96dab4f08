/** `check_availability` of the Compass checker over an abstract browser page:
    the page load, the month navigation, the cell classification and the
    verdict. */
module CompassChecker {
  import opened Text
  import opened CheckDate
  import opened MonthLocator
  import opened CellClassifier

  /** What the page shows at one moment: the calendar the locator reads and
      the elements the classifier queries. */
  datatype View = View(calendar: Calendar, elements: seq<Element>)

  /** How `page.goto` ends: loaded, a Playwright timeout, or another error
      with its text. */
  datatype Load = Loaded | Timeout | Failed(desc: string)

  const TimeoutText: string := "ページの読み込みがタイムアウトしました"
  const OpenFailedText: string := "ページを開けませんでした: "

  function CalendarOf(v: View): Calendar
  {
    v.calendar
  }

  /** `get_calendar_text()` on a view. */
  function CalendarTextOf(v: View): string
  {
    CalendarText(v.calendar.probes, v.calendar.body)
  }

  /** The browser page. `respond` gives the view after a click, None when the
      click raises; `clicks` records every click attempted, `closed` whether
      `browser.close()` ran. */
  class CompassPage {
    const load: Load
    const respond: (View, Click) -> Option<View>
    var view: View
    var clicks: seq<Click>
    var closed: bool

    constructor (load: Load, respond: (View, Click) -> Option<View>, view: View)
      ensures this.load == load && this.respond == respond && this.view == view
      ensures clicks == [] && !closed
    {
      this.load := load;
      this.respond := respond;
      this.view := view;
      clicks := [];
      closed := false;
    }

    function ReadCalendarText(): string
      reads this
    {
      CalendarTextOf(view)
    }

    /** `locator.click(timeout=5000)`. */
    method Press(c: Click) returns (ok: bool)
      modifies this
      ensures ok <==> respond(old(view), c).Some?
      ensures view == if ok then respond(old(view), c).value else old(view)
      ensures clicks == old(clicks) + [c] && closed == old(closed)
    {
      clicks := clicks + [c];
      match respond(view, c)
      case None => ok := false;
      case Some(v) => ok := true; view := v;
    }

    /** `browser.close()`. */
    method Close()
      modifies this
      ensures closed && view == old(view) && clicks == old(clicks)
    {
      closed := true;
    }
  }

  /** `total` is what remains, `rest`, after the clicks `done`. */
  predicate Resumes(total: NavResult<View>, done: seq<Click>, rest: NavResult<View>)
  {
    total == NavResult(rest.final, done + rest.clicks, rest.reason)
  }

  /** A round that goes on leaves the rest of the loop to the next page. */
  lemma ResumeAfterRound(total: NavResult<View>, done: seq<Click>, v: View,
                         respond: (View, Click) -> Option<View>, t: IsoDate, fuel: nat)
    requires fuel > 0 && Resumes(total, done, Navigate(v, CalendarOf, respond, t, fuel))
    requires RoundOf(v, CalendarOf, respond, t).Continue?
    ensures var o := RoundOf(v, CalendarOf, respond, t);
            Resumes(total, done + o.clicks, Navigate(o.next, CalendarOf, respond, t, fuel - 1))
  {
    var o := RoundOf(v, CalendarOf, respond, t);
    var rest := Navigate(o.next, CalendarOf, respond, t, fuel - 1);
    assert done + (o.clicks + rest.clicks) == (done + o.clicks) + rest.clicks;
  }

  /** A round that stops ends the loop on the same page. */
  lemma HaltEndsLoop(total: NavResult<View>, done: seq<Click>, v: View,
                     respond: (View, Click) -> Option<View>, t: IsoDate, fuel: nat)
    requires fuel > 0 && Resumes(total, done, Navigate(v, CalendarOf, respond, t, fuel))
    requires RoundOf(v, CalendarOf, respond, t).Halt?
    ensures var o := RoundOf(v, CalendarOf, respond, t);
            total == NavResult(v, done + o.clicks, o.reason)
  {
  }

  /** One round of main.py:132-169: decide on the text read at its start,
      press the chosen button, and tell whether the loop stops. */
  method NavigationRound(page: CompassPage, t: IsoDate, text: string) returns (stop: Option<StopReason>)
    requires text == CalendarTextOf(page.view)
    modifies page
    ensures var o := RoundOf(old(page.view), CalendarOf, page.respond, t);
            && (stop.Some? <==> o.Halt?)
            && (o.Halt? ==> stop.value == o.reason && page.view == old(page.view))
            && (o.Continue? ==> page.view == o.next)
            && page.clicks == old(page.clicks) + o.clicks && page.closed == old(page.closed)
  {
    match Decide(text, t, page.view.calendar.buttons) {
      case Stop(r) =>
        stop := Some(r);
      case Wait =>
        stop := None;
      case Press(c) =>
        var ok := page.Press(c);
        stop := if ok then None else Some(ClickFailed);
    }
  }

  /** One round with `fuel` rounds left of a loop whose whole run is `total`
      and which has clicked `done` so far: afterwards the loop has either
      ended as `total` says or `total` resumes on the new page. */
  method ResumingRound(page: CompassPage, t: IsoDate, text: string,
                       ghost total: NavResult<View>, ghost clicks0: seq<Click>, ghost done: seq<Click>, ghost fuel: nat)
      returns (stop: Option<StopReason>, ghost made: seq<Click>)
    requires text == CalendarTextOf(page.view) && page.clicks == clicks0 + done
    requires fuel > 0 && Resumes(total, done, Navigate(page.view, CalendarOf, page.respond, t, fuel))
    modifies page
    ensures page.clicks == clicks0 + (done + made) && page.closed == old(page.closed)
    ensures stop.Some? ==> total == NavResult(page.view, done + made, stop.value)
    ensures stop.None? ==> Resumes(total, done + made, Navigate(page.view, CalendarOf, page.respond, t, fuel - 1))
  {
    ghost var v := page.view;
    made := RoundOf(v, CalendarOf, page.respond, t).clicks;
    stop := NavigationRound(page, t, text);
    assert page.clicks == clicks0 + (done + made);
    if stop.Some? {
      HaltEndsLoop(total, done, v, page.respond, t, fuel);
    } else {
      ResumeAfterRound(total, done, v, page.respond, t, fuel);
    }
  }

  /** The loop of main.py:130-169: at most `rounds` rounds (`max_clicks`,
      24), the text re-read at the end of every round that does not stop. */
  method LocateMonth(page: CompassPage, t: IsoDate, rounds: nat) returns (reason: StopReason)
    modifies page
    ensures var n := Navigate(old(page.view), CalendarOf, page.respond, t, rounds);
            page.view == n.final && page.clicks == old(page.clicks) + n.clicks && reason == n.reason
    ensures page.closed == old(page.closed)
  {
    ghost var total := Navigate(page.view, CalendarOf, page.respond, t, rounds);
    ghost var clicks0 := page.clicks;
    ghost var done: seq<Click> := [];
    var text := page.ReadCalendarText();
    reason := BoundReached;
    for k := 0 to rounds
      invariant text == CalendarTextOf(page.view)
      invariant page.clicks == clicks0 + done && page.closed == old(page.closed)
      invariant reason == BoundReached
      invariant Resumes(total, done, Navigate(page.view, CalendarOf, page.respond, t, rounds - k))
    {
      var stop: Option<StopReason>;
      ghost var made: seq<Click>;
      stop, made := ResumingRound(page, t, text, total, clicks0, done, rounds - k);
      done := done + made;
      if stop.Some? {
        reason := stop.value;
        break;
      }
      text := page.ReadCalendarText();
    }
  }

  /** The verdict of `check_availability` for a page that starts at `v`. */
  function CompassOutcome(v: View, load: Load, respond: (View, Click) -> Option<View>, t: IsoDate): CheckResult
  {
    match load
    case Timeout => Verdict(false, TimeoutText)
    case Failed(d) => Verdict(false, OpenFailedText + d)
    case Loaded =>
      var n := Navigate(v, CalendarOf, respond, t, MaxClicks);
      Report(t.Text(), Classify(n.final.elements, t.Text(), DayNumber(t), t.dayText))
  }

  /** main.py:95-255: load, navigate, classify and report; the browser is
      closed on every path that returns. */
  method CheckAvailability(page: CompassPage, t: IsoDate) returns (r: CheckResult)
    modifies page
    ensures r == CompassOutcome(old(page.view), page.load, page.respond, t)
    ensures !r.Raised? ==> page.closed
    ensures r.Raised? ==> page.closed == old(page.closed)
    ensures !page.load.Loaded? ==> page.clicks == old(page.clicks) && page.view == old(page.view)
    ensures page.load.Loaded? ==>
              var n := Navigate(old(page.view), CalendarOf, page.respond, t, MaxClicks);
              page.view == n.final && page.clicks == old(page.clicks) + n.clicks
    ensures |page.clicks| <= |old(page.clicks)| + MaxClicks
  {
    match page.load {
      case Timeout =>
        page.Close();
        return Verdict(false, TimeoutText);
      case Failed(d) =>
        page.Close();
        return Verdict(false, OpenFailedText + d);
      case Loaded =>
    }
    var _ := LocateMonth(page, t, MaxClicks);
    AtMostMaxClicks(old(page.view), CalendarOf, page.respond, t);
    var date := t.Text();
    var els := page.view.elements;
    var cell: CellResult;
    match DirectLookup(els, date) {
      case Some(k) =>
        var f := ClassifyDirect(els[k]);
        if f.None? {
          return Raised;
        }
        cell := Located(f.value);
      case None =>
        var s := HeuristicScan(Candidates(els), DayNumber(t), t.dayText);
        cell := if s.cell.Some? then Located(s.flags) else NotLocated;
    }
    page.Close();
    r := Report(date, cell);
  }

  /** A page that does not load gives a negative verdict without any click. */
  lemma LoadFailureIsNegative(v: View, load: Load, respond: (View, Click) -> Option<View>, t: IsoDate)
    requires !load.Loaded?
    ensures var r := CompassOutcome(v, load, respond, t);
            r.Verdict? && !r.available
            && r.message == (if load.Timeout? then TimeoutText else OpenFailedText + load.desc)
  {
  }

  /** An exception escapes exactly when the directly found cell of the final
      page cannot be read: its text, or its class attribute when no
      unavailable marker decided first. */
  lemma RaisesOnlyOnUnreadableCell(v: View, load: Load, respond: (View, Click) -> Option<View>, t: IsoDate)
    ensures var r := CompassOutcome(v, load, respond, t);
            var els := Navigate(v, CalendarOf, respond, t, MaxClicks).final.elements;
            var k := DirectLookup(els, t.Text());
            r.Raised? <==> load.Loaded? && k.Some? &&
                           (!els[k.value].readable || (!HasAny(Strip(els[k.value].text), NoSlotMarks) && els[k.value].classAttr.None?))
  {
    if load.Loaded? {
      var els := Navigate(v, CalendarOf, respond, t, MaxClicks).final.elements;
      DirectPrefersExact(els, t.Text());
      var k := DirectLookup(els, t.Text());
      if k.Some? {
        DirectFlagsExclusive(els[k.value]);
      }
      ReportPrecedence(t.Text(), Classify(els, t.Text(), DayNumber(t), t.dayText));
    }
  }

  /** "Available" is reported only when some element of the page the
      navigation ended on shows an available marker, and no unavailable
      marker, in its stripped text. */
  lemma AvailableNeedsMarker(v: View, load: Load, respond: (View, Click) -> Option<View>, t: IsoDate)
    ensures var r := CompassOutcome(v, load, respond, t);
            var els := Navigate(v, CalendarOf, respond, t, MaxClicks).final.elements;
            r.Verdict? && r.available ==>
              load.Loaded? && exists e :: e in els && e.readable
                                          && HasAny(Strip(e.text), SlotMarks) && !HasAny(Strip(e.text), NoSlotMarks)
  {
    var r := CompassOutcome(v, load, respond, t);
    if load.Loaded? && r.Verdict? && r.available {
      var els := Navigate(v, CalendarOf, respond, t, MaxClicks).final.elements;
      var date := t.Text();
      var c := Classify(els, date, DayNumber(t), t.dayText);
      ReportPrecedence(date, c);
      match DirectLookup(els, date)
      case Some(k) =>
        DirectPrefersExact(els, date);
        DirectFlagsExclusive(els[k]);
        assert els[k] in els;
      case None =>
        var cands := Candidates(els);
        ScanSelectsFirst(cands, DayNumber(t), t.dayText);
        var j := Scan(cands, DayNumber(t), t.dayText).cell.value;
        ExamineMeaning(cands[j], DayNumber(t), t.dayText);
        assert cands[j] in els;
    }
  }
}

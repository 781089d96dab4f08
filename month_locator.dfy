/** The month navigation of the Compass checker: reading the calendar text,
    recognising the target month's label, finding the first `<year>年<month>月`
    shown, and deciding which button to press, bounded by 24 rounds. */
module MonthLocator {
  import opened Text
  import opened CheckDate

  /** `max_clicks`: the number of rounds of the navigation loop. */
  const MaxClicks: nat := 24

  /** `f"{year}年{month}月"`: the label with the month as written in the date. */
  function TargetLabel(t: IsoDate): string
  {
    t.yearText + "年" + t.monthText + "月"
  }

  /** `f"{year}年{month_int}月"`: the label with the month as a plain number. */
  function TargetLabelAlt(t: IsoDate): string
  {
    t.yearText + "年" + NatToString(t.date.month) + "月"
  }

  /** `day_part.lstrip("0") or "0"`. */
  function DayNumber(t: IsoDate): string
  {
    var s := DropZeros(t.dayText);
    if s == "" then "0" else s
  }

  /** The two labels coincide exactly when the month is written without a
      leading zero; otherwise the first is the zero-padded form. */
  lemma LabelForms(t: IsoDate)
    requires WellFormed(t)
    ensures TargetLabel(t) == TargetLabelAlt(t) <==> t.monthText[0] != '0'
    ensures t.monthText[0] == '0' ==> t.monthText == ['0'] + NatToString(t.date.month)
  {
    if t.monthText[0] == '0' {
      DecimalLeadingZero(t.monthText);
      CanonicalDecimal(t.monthText[1..]);
      assert |TargetLabel(t)| != |TargetLabelAlt(t)|;
    } else {
      CanonicalDecimal(t.monthText);
    }
  }

  /** The day number is the day of the month without leading zeros, except
      for the space-padded form `" 5"`, which is kept as it is. */
  lemma DayNumberIsDay(t: IsoDate)
    requires WellFormed(t)
    ensures t.dayText[0] != ' ' ==> DayNumber(t) == NatToString(t.date.day)
    ensures t.dayText[0] == ' ' ==> DayNumber(t) == t.dayText
  {
    if t.dayText[0] == '0' {
      DecimalLeadingZero(t.dayText);
      CanonicalDecimal(t.dayText[1..]);
      assert DropZeros(t.dayText) == DropZeros(t.dayText[1..]);
    } else if t.dayText[0] != ' ' {
      CanonicalDecimal(t.dayText);
    }
  }

  datatype YearMonth = YearMonth(year: int, month: int)

  /** Python's tuple order on `(year, month)`. */
  predicate Before(a: YearMonth, b: YearMonth)
  {
    a.year < b.year || (a.year == b.year && a.month < b.month)
  }

  /** A match of `(\d{4})年(\d{1,2})月` starting at index `i`; the month takes
      two digits when it can. */
  function LabelAt(s: string, i: nat): Option<YearMonth>
  {
    if i + 7 > |s| || !AllDigits(s[i..i + 4]) || s[i + 4] != '年' || !IsDigit(s[i + 5]) then None
    else if s[i + 6] == '月' then Some(YearMonth(DecimalValue(s[i..i + 4]), DecimalValue(s[i + 5..i + 6])))
    else if i + 8 <= |s| && IsDigit(s[i + 6]) && s[i + 7] == '月' then
      Some(YearMonth(DecimalValue(s[i..i + 4]), DecimalValue(s[i + 5..i + 7])))
    else None
  }

  function FirstLabelFrom(s: string, i: nat): Option<YearMonth>
    decreases |s| - i
  {
    if i >= |s| then None
    else if LabelAt(s, i).Some? then LabelAt(s, i)
    else FirstLabelFrom(s, i + 1)
  }

  /** `re.search(r"(\d{4})年(\d{1,2})月", s)`, as the year and month it reads. */
  function FirstLabel(s: string): Option<YearMonth>
  {
    FirstLabelFrom(s, 0)
  }

  lemma {:induction false} FirstLabelFromLeftmost(s: string, from: nat, i: nat)
    requires from <= i && LabelAt(s, i).Some? && forall j :: from <= j < i ==> LabelAt(s, j).None?
    ensures FirstLabelFrom(s, from) == LabelAt(s, i)
    decreases i - from
  {
    if from < i {
      FirstLabelFromLeftmost(s, from + 1, i);
    }
  }

  lemma {:induction false} FirstLabelFromFound(s: string, from: nat)
    ensures FirstLabelFrom(s, from).Some? ==>
              exists i :: from <= i < |s| && FirstLabelFrom(s, from) == LabelAt(s, i)
                          && forall j :: from <= j < i ==> LabelAt(s, j).None?
    ensures FirstLabelFrom(s, from).None? ==> forall j :: from <= j ==> LabelAt(s, j).None?
    decreases |s| - from
  {
    if from < |s| && LabelAt(s, from).None? {
      FirstLabelFromFound(s, from + 1);
    }
  }

  /** The label read is the leftmost match in the text, and there is none
      exactly when no index starts a match. */
  lemma FirstLabelIsLeftmost(s: string, i: nat)
    requires LabelAt(s, i).Some? && forall j :: 0 <= j < i ==> LabelAt(s, j).None?
    ensures FirstLabel(s) == LabelAt(s, i)
  {
    FirstLabelFromLeftmost(s, 0, i);
  }

  lemma NoLabelAnywhere(s: string)
    ensures FirstLabel(s).None? <==> forall j :: 0 <= j ==> LabelAt(s, j).None?
  {
    FirstLabelFromFound(s, 0);
    if FirstLabel(s).Some? {
      var i :| 0 <= i < |s| && FirstLabel(s) == LabelAt(s, i) && forall j :: 0 <= j < i ==> LabelAt(s, j).None?;
    }
  }

  /** What `get_calendar_text` finds for each of its selectors, in order:
      `[class*='calendar']`, `[class*='Calendar']`, `[role='application']`,
      `text=入場日を選びます`. */
  datatype Probe = Absent | Present(text: string) | Unreadable

  /** `get_calendar_text()`: the first selector with a readable element gives
      its text followed by the body text; with none, the body text alone. */
  function CalendarText(probes: seq<Probe>, body: string): (r: string)
    ensures (forall k :: 0 <= k < |probes| ==> !probes[k].Present?) ==> r == body
    ensures forall k :: 0 <= k < |probes| && probes[k].Present? && (forall j :: 0 <= j < k ==> !probes[j].Present?)
                        ==> r == probes[k].text + " " + body
  {
    if probes == [] then body
    else if probes[0].Present? then probes[0].text + " " + body
    else
      var r := CalendarText(probes[1..], body);
      assert forall k :: 1 <= k < |probes| ==> probes[k] == probes[1..][k - 1];
      r
  }

  /** What `count()` gives for the enabled buttons whose text matches
      `>|›|次` (next), `<|‹|前` (prev) and `>|›` (arrows); None when that
      `count()` raises. */
  datatype Buttons = Buttons(next: Option<nat>, prev: Option<nat>, arrows: Option<nat>)

  /** What the locator reads from the page in one round. */
  datatype Calendar = Calendar(probes: seq<Probe>, body: string, buttons: Buttons)

  /** A press of the button at `index` among the matches of one filter. */
  datatype Click = NextButton(index: nat) | PrevButton(index: nat) | ArrowButton(index: nat)

  datatype StopReason =
    | Reached        // the target label is shown
    | SameMonth      // the first label shown is the target month
    | NoNextButton   // behind the target and no next button
    | NoArrowButton  // no label and no arrow button
    | CountFailed    // counting the buttons raised; the loop's handler breaks
    | ClickFailed    // the click raised; the loop's handler breaks
    | BoundReached   // 24 rounds done

  /** One round: stop, press a button, or do nothing and read again. */
  datatype Action = Stop(reason: StopReason) | Press(click: Click) | Wait

  predicate ShowsTarget(text: string, t: IsoDate)
  {
    Contains(text, TargetLabel(t)) || Contains(text, TargetLabelAlt(t))
  }

  /** The body of one round of the navigation loop. */
  function Decide(text: string, t: IsoDate, b: Buttons): Action
  {
    if ShowsTarget(text, t) then Stop(Reached)
    else match FirstLabel(text)
      case Some(cur) =>
        var goal := YearMonth(t.date.year, t.date.month);
        if Before(cur, goal) then
          match b.next
          case None => Stop(CountFailed)
          case Some(n) =>
            if n >= 2 then Press(NextButton(1))
            else if n == 1 then Press(NextButton(0))
            else Stop(NoNextButton)
        else if Before(goal, cur) then
          match b.prev
          case None => Stop(CountFailed)
          case Some(n) => if n > 0 then Press(PrevButton(0)) else Wait
        else Stop(SameMonth)
      case None =>
        match b.arrows
        case None => Stop(CountFailed)
        case Some(n) => if n > 0 then Press(ArrowButton(n - 1)) else Stop(NoArrowButton)
  }

  /** Behind the target: the second next button when there are two or more,
      the only one when there is one, and stop when there is none or when
      counting them raises. */
  lemma DecideBehind(text: string, t: IsoDate, b: Buttons, i: nat)
    requires !ShowsTarget(text, t)
    requires LabelAt(text, i).Some? && forall j :: 0 <= j < i ==> LabelAt(text, j).None?
    requires Before(LabelAt(text, i).value, YearMonth(t.date.year, t.date.month))
    ensures Decide(text, t, b) == match b.next
                                  case None => Stop(CountFailed)
                                  case Some(n) =>
                                    if n >= 2 then Press(NextButton(1))
                                    else if n == 1 then Press(NextButton(0))
                                    else Stop(NoNextButton)
  {
    FirstLabelIsLeftmost(text, i);
  }

  /** Ahead of the target: the first prev button, or no press at all; the
      round stops the loop only when counting the buttons raises. */
  lemma DecideAhead(text: string, t: IsoDate, b: Buttons, i: nat)
    requires !ShowsTarget(text, t)
    requires LabelAt(text, i).Some? && forall j :: 0 <= j < i ==> LabelAt(text, j).None?
    requires Before(YearMonth(t.date.year, t.date.month), LabelAt(text, i).value)
    ensures Decide(text, t, b) == match b.prev
                                  case None => Stop(CountFailed)
                                  case Some(n) => if n > 0 then Press(PrevButton(0)) else Wait
  {
    FirstLabelIsLeftmost(text, i);
  }

  /** On the target month: stop. */
  lemma DecideSameMonth(text: string, t: IsoDate, b: Buttons, i: nat)
    requires !ShowsTarget(text, t)
    requires LabelAt(text, i) == Some(YearMonth(t.date.year, t.date.month))
    requires forall j :: 0 <= j < i ==> LabelAt(text, j).None?
    ensures Decide(text, t, b) == Stop(SameMonth)
  {
    FirstLabelIsLeftmost(text, i);
  }

  /** No label at all: the last arrow button, or stop when there is none or
      when counting them raises. */
  lemma DecideNoLabel(text: string, t: IsoDate, b: Buttons)
    requires !ShowsTarget(text, t)
    requires forall j :: 0 <= j ==> LabelAt(text, j).None?
    ensures Decide(text, t, b) == match b.arrows
                                  case None => Stop(CountFailed)
                                  case Some(n) => if n > 0 then Press(ArrowButton(n - 1)) else Stop(NoArrowButton)
  {
    NoLabelAnywhere(text);
  }

  /** Every press names a button that exists. */
  lemma DecidePressesExistingButton(text: string, t: IsoDate, b: Buttons)
    ensures Decide(text, t, b).Press? ==>
              match Decide(text, t, b).click
              case NextButton(k) => b.next.Some? && k < b.next.value
              case PrevButton(k) => b.prev.Some? && k < b.prev.value
              case ArrowButton(k) => b.arrows.Some? && k < b.arrows.value
  {
  }

  datatype NavResult<V> = NavResult(final: V, clicks: seq<Click>, reason: StopReason)

  /** What one round does: go on to the next round on page `next`, or stop;
      either after the clicks made in the round. */
  datatype Round<V> = Continue(next: V, clicks: seq<Click>) | Halt(clicks: seq<Click>, reason: StopReason)

  /** One round of the navigation loop on page `v`: `cal` gives what the
      locator reads from a page and `respond` the page after a press (None
      when the press raises). A round clicks at most once, and stops as
      reached only on a page showing the target. */
  function RoundOf<V>(v: V, cal: V -> Calendar, respond: (V, Click) -> Option<V>, t: IsoDate): (r: Round<V>)
    ensures |r.clicks| <= 1
    ensures r.Halt? && r.reason == Reached ==> ShowsTarget(CalendarText(cal(v).probes, cal(v).body), t) && r.clicks == []
  {
    match Decide(CalendarText(cal(v).probes, cal(v).body), t, cal(v).buttons)
    case Stop(r) => Halt([], r)
    case Wait => Continue(v, [])
    case Press(c) =>
      match respond(v, c)
      case None => Halt([c], ClickFailed)
      case Some(v') => Continue(v', [c])
  }

  /** The navigation loop with `fuel` rounds left. */
  function Navigate<V>(v: V, cal: V -> Calendar, respond: (V, Click) -> Option<V>, t: IsoDate, fuel: nat): NavResult<V>
    decreases fuel
  {
    if fuel == 0 then NavResult(v, [], BoundReached)
    else
      match RoundOf(v, cal, respond, t)
      case Halt(cs, r) => NavResult(v, cs, r)
      case Continue(v', cs) =>
        var rest := Navigate(v', cal, respond, t, fuel - 1);
        NavResult(rest.final, cs + rest.clicks, rest.reason)
  }

  /** The loop ends after at most `fuel` presses whatever the page does, and
      it reports the target as reached only when the final page shows it. */
  lemma {:induction false} NavigateBounded<V>(v: V, cal: V -> Calendar, respond: (V, Click) -> Option<V>, t: IsoDate, fuel: nat)
    ensures var n := Navigate(v, cal, respond, t, fuel);
            && |n.clicks| <= fuel
            && (n.reason == Reached ==> ShowsTarget(CalendarText(cal(n.final).probes, cal(n.final).body), t))
            && (n.reason != BoundReached ==> fuel > 0)
    decreases fuel
  {
    if fuel > 0 {
      match RoundOf(v, cal, respond, t)
      case Halt(_, _) =>
      case Continue(v', _) => NavigateBounded(v', cal, respond, t, fuel - 1);
    }
  }

  /** The whole loop presses at most 24 buttons. */
  lemma AtMostMaxClicks<V>(v: V, cal: V -> Calendar, respond: (V, Click) -> Option<V>, t: IsoDate)
    ensures |Navigate(v, cal, respond, t, MaxClicks).clicks| <= 24
  {
    NavigateBounded(v, cal, respond, t, MaxClicks);
  }

  /** A page that already shows either label form is left alone. */
  lemma ShownTargetNoClick<V>(v: V, cal: V -> Calendar, respond: (V, Click) -> Option<V>, t: IsoDate)
    requires ShowsTarget(CalendarText(cal(v).probes, cal(v).body), t)
    ensures Navigate(v, cal, respond, t, MaxClicks) == NavResult(v, [], Reached)
  {
  }

  /** Ahead of the target without a prev button the loop does not break: it
      re-reads the unchanged page until the rounds run out, pressing nothing. */
  lemma {:induction false} AheadWithoutPrevSpins<V>(v: V, cal: V -> Calendar, respond: (V, Click) -> Option<V>, t: IsoDate, fuel: nat)
    requires Decide(CalendarText(cal(v).probes, cal(v).body), t, cal(v).buttons) == Wait
    ensures Navigate(v, cal, respond, t, fuel) == NavResult(v, [], BoundReached)
    decreases fuel
  {
    if fuel > 0 {
      AheadWithoutPrevSpins(v, cal, respond, t, fuel - 1);
    }
  }
}

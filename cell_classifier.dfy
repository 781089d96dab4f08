/** Finding and classifying the target day's cell in the Compass calendar:
    the `data-date` lookup, the heuristic scan over candidate elements, the
    marker and CSS-class tests, and the mapping to the checker's result. */
module CellClassifier {
  import opened Text

  /** `no_slot_marks`: text meaning "no slots". */
  const NoSlotMarks: seq<string> := ["X", "×", "✕", "❌", "満員", "売切", "－", "ー", "−"]

  /** `slot_marks`: text meaning "slots available". */
  const SlotMarks: seq<string> := ["○", "〇", "△", "▲", "空き", "◯", "◎", "購入", "選択"]

  /** CSS-class keywords that mark a directly found cell as unavailable. */
  const ClassKeywords: seq<string> := ["unavailable", "soldout", "sold-out", "closed", "full", "disabled", "no-slot", "blocked"]

  /** The dash glyphs of a cell that is not selectable yet. */
  const DashMarks: seq<string> := ["—", "－"]

  /** Longest text a heuristic candidate may have. */
  const MaxCellText: nat := 50

  /** An element of the page: its `inner_text()` (when `readable`; otherwise
      reading it raises), its `class` attribute as `get_attribute("class") or ""`
      gives it (None when that call raises), its `data-date` attribute, and
      whether it matches the candidate selector
      `td, li, [role='gridcell'], [role='button'], button, a`. */
  datatype Element = Element(text: string, readable: bool, classAttr: Option<string>, dataDate: Option<string>, candidate: bool)

  /** `found_no_slots` and `found_available`. */
  datatype Flags = Flags(noSlots: bool, available: bool)

  /** The first element satisfying `p`, in document order. */
  function FindFirst(els: seq<Element>, p: Element -> bool): (r: Option<nat>)
    ensures r.Some? ==> r.value < |els| && p(els[r.value]) && forall j :: 0 <= j < r.value ==> !p(els[j])
    ensures r.None? ==> forall j :: 0 <= j < |els| ==> !p(els[j])
  {
    if els == [] then None
    else if p(els[0]) then Some(0)
    else match FindFirst(els[1..], p)
      case None => None
      case Some(k) => Some(k + 1)
  }

  /** `[data-date="{date}"]`. */
  predicate ExactDate(e: Element, date: string)
  {
    e.dataDate == Some(date)
  }

  /** `[data-date*="{date}"]`. */
  predicate PartialDate(e: Element, date: string)
  {
    e.dataDate.Some? && Contains(e.dataDate.value, date)
  }

  /** `page.query_selector` for an exact `data-date`, then for one containing the date. */
  function DirectLookup(els: seq<Element>, date: string): Option<nat>
  {
    match FindFirst(els, e => ExactDate(e, date))
    case Some(k) => Some(k)
    case None => FindFirst(els, e => PartialDate(e, date))
  }

  /** An exact `data-date` match is taken even when a partial match comes
      first; a partial match is taken only when there is no exact one. */
  lemma DirectPrefersExact(els: seq<Element>, date: string)
    ensures var r := DirectLookup(els, date);
            && ((exists k :: 0 <= k < |els| && ExactDate(els[k], date)) ==>
                  r.Some? && r.value < |els| && ExactDate(els[r.value], date)
                  && forall j :: 0 <= j < r.value ==> !ExactDate(els[j], date))
            && ((forall k :: 0 <= k < |els| ==> !ExactDate(els[k], date)) ==>
                  r == FindFirst(els, e => PartialDate(e, date)))
            && (r.None? <==> forall k :: 0 <= k < |els| ==> !PartialDate(els[k], date))
  {
    var exact := FindFirst(els, e => ExactDate(e, date));
    var partial := FindFirst(els, e => PartialDate(e, date));
    if exact.Some? {
      var k := exact.value;
      assert els[k].dataDate.value == date;
      assert date <= els[k].dataDate.value;
      assert PartialDate(els[k], date);
    }
  }

  /** The loops of main.py:220-227 and 230-244: is any of `marks` in `text`? */
  method AnyMark(text: string, marks: seq<string>) returns (found: bool)
    ensures found == HasAny(text, marks)
  {
    found := false;
    for k := 0 to |marks|
      invariant forall j :: 0 <= j < k ==> !Contains(text, marks[j])
    {
      if Contains(text, marks[k]) {
        found := true;
        break;
      }
    }
  }

  /** The direct path on a found cell: an unavailable marker, else a class
      keyword, decides "no slots"; only then are the available markers
      consulted. None when reading the cell's text raises, or when the class
      attribute is read (no unavailable marker) and that raises. */
  function DirectFlags(e: Element): Option<Flags>
  {
    if !e.readable then None
    else
      var text := Strip(e.text);
      if HasAny(text, NoSlotMarks) then Some(Flags(true, false))
      else match e.classAttr
        case None => None
        case Some(cls) =>
          var no := HasAny(AsciiLower(cls), ClassKeywords);
          Some(Flags(no, !no && HasAny(text, SlotMarks)))
  }

  /** main.py:229-244 as statements. */
  method ClassifyDirect(e: Element) returns (f: Option<Flags>)
    ensures f == DirectFlags(e)
  {
    if !e.readable {
      return None;
    }
    var text := Strip(e.text);
    var noSlots := AnyMark(text, NoSlotMarks);
    if !noSlots {
      if e.classAttr.None? {
        return None;
      }
      var cls := AsciiLower(e.classAttr.value);
      noSlots := AnyMark(cls, ClassKeywords);
    }
    var available := false;
    if !noSlots {
      available := AnyMark(text, SlotMarks);
    }
    f := Some(Flags(noSlots, available));
  }

  /** The direct path raises exactly when the text cannot be read, or when
      the class attribute is needed and cannot be read. Otherwise the two
      flags are never both set; an unavailable marker or a class keyword
      makes the cell unavailable whatever else it shows; the cell is
      available exactly when an available marker is present and neither an
      unavailable marker nor a class keyword is. */
  lemma DirectFlagsExclusive(e: Element)
    ensures DirectFlags(e).None? <==> !e.readable || (!HasAny(Strip(e.text), NoSlotMarks) && e.classAttr.None?)
    ensures DirectFlags(e).Some? ==> !(DirectFlags(e).value.noSlots && DirectFlags(e).value.available)
    ensures e.readable && HasAny(Strip(e.text), NoSlotMarks) ==> DirectFlags(e) == Some(Flags(true, false))
    ensures e.readable && e.classAttr.Some? && HasAny(AsciiLower(e.classAttr.value), ClassKeywords) ==>
              DirectFlags(e) == Some(Flags(true, false))
    ensures DirectFlags(e).Some? ==>
              (DirectFlags(e).value.available <==>
                 HasAny(Strip(e.text), SlotMarks) && !HasAny(Strip(e.text), NoSlotMarks)
                 && e.classAttr.Some? && !HasAny(AsciiLower(e.classAttr.value), ClassKeywords))
  {
  }

  /** What the heuristic scan does with one candidate. */
  datatype Outcome = Skip | Select(flags: Flags)

  /** One round of the scan loop (main.py:192-217). The log statement at
      main.py:211 is taken as the intended no-op (see ExamineAsWritten). */
  function Examine(e: Element, dayNum: string, dayPart: string): Outcome
  {
    if !e.readable then Skip
    else
      var text := Strip(e.text);
      if text == "" || |text| > MaxCellText || !HasToken(text, dayNum) then Skip
      else
        var no := HasAny(text, NoSlotMarks);
        var yes := HasAny(text, SlotMarks);
        if no || yes then Select(Flags(no, yes))
        else if HasAny(text, DashMarks) then Skip
        else if Contains(text, dayNum) || Contains(text, dayPart) then Select(Flags(false, false))
        else Skip
  }

  /** A candidate is eligible when it is readable, its stripped text is
      non-empty, at most 50 characters long and holds the day as a token. */
  predicate Eligible(e: Element, dayNum: string)
  {
    e.readable && Strip(e.text) != "" && |Strip(e.text)| <= MaxCellText && HasToken(Strip(e.text), dayNum)
  }

  /** The scan selects an eligible cell carrying a marker, with the flags set
      from the markers present, or an eligible marker-less cell without a dash;
      it skips every other candidate. The fallback test of main.py:215 always
      holds once the token test has passed. */
  lemma ExamineMeaning(e: Element, dayNum: string, dayPart: string)
    ensures var text := Strip(e.text);
            Examine(e, dayNum, dayPart) ==
              if !Eligible(e, dayNum) then Skip
              else if HasAny(text, NoSlotMarks) || HasAny(text, SlotMarks) then
                Select(Flags(HasAny(text, NoSlotMarks), HasAny(text, SlotMarks)))
              else if HasAny(text, DashMarks) then Skip
              else Select(Flags(false, false))
  {
    var text := Strip(e.text);
    if Eligible(e, dayNum) {
      var i :| 0 <= i <= |text| && TokenAt(text, dayNum, i);
      assert OccursAt(text, dayNum, i);
      ContainsIff(text, dayNum);
    }
  }

  /** The result of the heuristic scan: the index of the selected candidate
      and the flags. */
  datatype ScanResult = ScanResult(cell: Option<nat>, flags: Flags)

  /** The scan over `cands` from index `i`, with `ex` deciding each round. */
  function ScanWith(cands: seq<Element>, ex: Element -> Outcome, i: nat): ScanResult
    decreases |cands| - i
  {
    if i >= |cands| then ScanResult(None, Flags(false, false))
    else match ex(cands[i])
      case Select(f) => ScanResult(Some(i), f)
      case Skip => ScanWith(cands, ex, i + 1)
  }

  /** `Examine` for one target day. */
  function RoundFor(dayNum: string, dayPart: string): Element -> Outcome
  {
    e => Examine(e, dayNum, dayPart)
  }

  /** The heuristic scan over `query_selector_all(...)`'s candidates. */
  function Scan(cands: seq<Element>, dayNum: string, dayPart: string): ScanResult
  {
    ScanWith(cands, RoundFor(dayNum, dayPart), 0)
  }

  lemma {:induction false} ScanWithFirstSelected(cands: seq<Element>, ex: Element -> Outcome, i: nat)
    ensures var r := ScanWith(cands, ex, i);
            && (r.cell.Some? ==>
                  && i <= r.cell.value < |cands| && ex(cands[r.cell.value]) == Select(r.flags)
                  && forall j :: i <= j < r.cell.value ==> ex(cands[j]) == Skip)
            && (r.cell.None? ==>
                  && r.flags == Flags(false, false)
                  && forall j :: i <= j < |cands| ==> ex(cands[j]) == Skip)
    decreases |cands| - i
  {
    if i < |cands| && ex(cands[i]) == Skip {
      ScanWithFirstSelected(cands, ex, i + 1);
    }
  }

  /** The scan selects the first candidate the loop does not skip, and
      selects nothing, with both flags clear, when it skips them all. */
  lemma ScanSelectsFirst(cands: seq<Element>, dayNum: string, dayPart: string)
    ensures var r := Scan(cands, dayNum, dayPart);
            && (r.cell.Some? ==>
                  && r.cell.value < |cands|
                  && Examine(cands[r.cell.value], dayNum, dayPart) == Select(r.flags)
                  && forall j :: 0 <= j < r.cell.value ==> Examine(cands[j], dayNum, dayPart) == Skip)
            && (r.cell.None? <==> forall j :: 0 <= j < |cands| ==> Examine(cands[j], dayNum, dayPart) == Skip)
            && (r.cell.None? ==> r.flags == Flags(false, false))
  {
    ScanWithFirstSelected(cands, RoundFor(dayNum, dayPart), 0);
  }

  /** The scan loop of main.py:191-227, with `continue`, `break` and the check
      of the selected cell's markers after the loop. */
  method HeuristicScan(cands: seq<Element>, dayNum: string, dayPart: string) returns (r: ScanResult)
    ensures r == Scan(cands, dayNum, dayPart)
  {
    ghost var ex := RoundFor(dayNum, dayPart);
    var cell: Option<nat> := None;
    var noSlots, available := false, false;
    var i := 0;
    while i < |cands|
      invariant 0 <= i <= |cands|
      invariant Scan(cands, dayNum, dayPart) == ScanWith(cands, ex, i)
      invariant cell.None? && !noSlots && !available
    {
      var e := cands[i];
      if !e.readable {
        assert ex(e) == Skip;
        i := i + 1;
        continue;
      }
      var text := Strip(e.text);
      if text == "" || |text| > MaxCellText {
        assert ex(e) == Skip;
        i := i + 1;
        continue;
      }
      if !HasToken(text, dayNum) {
        assert ex(e) == Skip;
        i := i + 1;
        continue;
      }
      var hasNo := AnyMark(text, NoSlotMarks);
      var hasYes := AnyMark(text, SlotMarks);
      if hasNo || hasYes {
        assert ex(e) == Select(Flags(hasNo, hasYes));
        cell := Some(i);
        if hasNo {
          noSlots := true;
        }
        if hasYes {
          available := true;
        }
        break;
      }
      // main.py:211 logs `cell_text`, which is unbound at this point; the
      // model logs nothing and goes on with the intended fallback.
      var dash := AnyMark(text, DashMarks);
      if dash {
        assert ex(e) == Skip;
        i := i + 1;
        continue;
      }
      if Contains(text, dayNum) || Contains(text, dayPart) {
        assert ex(e) == Select(Flags(false, false));
        cell := Some(i);
        break;
      }
      assert ex(e) == Skip;
      i := i + 1;
    }
    if cell.Some? && !noSlots && !available {
      var cellText := Strip(cands[cell.value].text);
      noSlots := AnyMark(cellText, NoSlotMarks);
      available := AnyMark(cellText, SlotMarks);
    }
    r := ScanResult(cell, Flags(noSlots, available));
  }

  /** The candidate list: the elements matching the candidate selector, in
      document order. */
  function Candidates(els: seq<Element>): (r: seq<Element>)
    ensures forall k :: 0 <= k < |r| ==> r[k].candidate && r[k] in els
    ensures forall e :: e in els && e.candidate ==> e in r
    ensures |r| <= |els|
  {
    if els == [] then []
    else (if els[0].candidate then [els[0]] else []) + Candidates(els[1..])
  }

  /** The candidates keep document order and multiplicity: those of a
      concatenation are the candidates of each part, in order. */
  lemma {:induction false} CandidatesAppend(a: seq<Element>, b: seq<Element>)
    ensures Candidates(a + b) == Candidates(a) + Candidates(b)
    decreases |a|
  {
    if a == [] {
      assert a + b == b;
    } else {
      assert (a + b)[1..] == a[1..] + b;
      CandidatesAppend(a[1..], b);
    }
  }

  /** A single element is a candidate exactly when it matches the selector. */
  lemma CandidatesSingle(e: Element)
    ensures Candidates([e]) == if e.candidate then [e] else []
  {
  }

  /** The state of the day cell after main.py:181-244. */
  datatype CellResult = Located(flags: Flags) | NotLocated | ReadFailed

  /** Which path runs is decided by the `data-date` lookup alone. */
  function Classify(els: seq<Element>, date: string, dayNum: string, dayPart: string): CellResult
  {
    match DirectLookup(els, date)
    case Some(k) =>
      (match DirectFlags(els[k]) case None => ReadFailed case Some(f) => Located(f))
    case None =>
      var s := Scan(Candidates(els), dayNum, dayPart);
      if s.cell.Some? then Located(s.flags) else NotLocated
  }

  /** When some element carries the date in its `data-date`, the result is
      that element's direct classification, whatever the other candidates
      hold; the heuristic scan runs only when none does. */
  lemma DirectPathDecides(els: seq<Element>, date: string, dayNum: string, dayPart: string)
    ensures (exists k :: 0 <= k < |els| && PartialDate(els[k], date)) ==>
              var k := DirectLookup(els, date).value;
              k < |els| && PartialDate(els[k], date)
              && Classify(els, date, dayNum, dayPart) == (if DirectFlags(els[k]).None? then ReadFailed else Located(DirectFlags(els[k]).value))
    ensures (forall k :: 0 <= k < |els| ==> !PartialDate(els[k], date)) ==>
              Classify(els, date, dayNum, dayPart) ==
                (var s := Scan(Candidates(els), dayNum, dayPart); if s.cell.Some? then Located(s.flags) else NotLocated)
  {
    DirectPrefersExact(els, date);
    var r := DirectLookup(els, date);
    if r.Some? && ExactDate(els[r.value], date) {
      assert date <= els[r.value].dataDate.value;
    }
  }

  /** `(has_slots, message)`, or an exception escaping `check_availability`. */
  datatype CheckResult = Verdict(available: bool, message: string) | Raised

  const NoSlotsText: string := " は空きなし（カレンダーでX/満員等の表示です）。"
  const AvailableText: string := " に空きがあります。サイトでご確認ください。"
  const NoMarkText: string := " は空きなしの表示です。"
  const NoCellText: string := " のカレンダーセルを特定できませんでした。要サイト確認。"

  /** main.py:249-255; a direct cell that could not be read raised earlier. */
  function Report(date: string, c: CellResult): CheckResult
  {
    match c
    case ReadFailed => Raised
    case NotLocated => Verdict(false, date + NoCellText)
    case Located(f) =>
      if f.noSlots then Verdict(false, date + NoSlotsText)
      else if f.available then Verdict(true, date + AvailableText)
      else Verdict(false, date + NoMarkText)
  }

  /** Unavailable wins over available, and a located cell without markers
      is reported differently from no cell at all. */
  lemma ReportPrecedence(date: string, c: CellResult)
    ensures Report(date, c).Verdict? <==> !c.ReadFailed?
    ensures Report(date, c).Verdict? ==>
              (Report(date, c).available <==> c.Located? && c.flags.available && !c.flags.noSlots)
    ensures c.Located? && c.flags.noSlots ==> Report(date, c) == Verdict(false, date + NoSlotsText)
    ensures c.Located? && !c.flags.noSlots && !c.flags.available ==> Report(date, c) == Verdict(false, date + NoMarkText)
    ensures c.NotLocated? ==> Report(date, c) == Verdict(false, date + NoCellText)
  {
  }

  // ---- main.py:211 as written ----

  /** What one round does as written: a marker-less candidate that holds the
      day raises UnboundLocalError at main.py:211, before the fallback. */
  datatype RoundAsWritten = SkipAsWritten | SelectAsWritten(flags: Flags) | Unbound

  function ExamineAsWritten(e: Element, dayNum: string): RoundAsWritten
  {
    if !Eligible(e, dayNum) then SkipAsWritten
    else
      var text := Strip(e.text);
      var no := HasAny(text, NoSlotMarks);
      var yes := HasAny(text, SlotMarks);
      if no || yes then SelectAsWritten(Flags(no, yes)) else Unbound
  }

  /** The scan as written; None when it raises. */
  function ScanAsWrittenFrom(cands: seq<Element>, dayNum: string, i: nat): Option<ScanResult>
    decreases |cands| - i
  {
    if i >= |cands| then Some(ScanResult(None, Flags(false, false)))
    else match ExamineAsWritten(cands[i], dayNum)
      case SelectAsWritten(f) => Some(ScanResult(Some(i), f))
      case Unbound => None
      case SkipAsWritten => ScanAsWrittenFrom(cands, dayNum, i + 1)
  }

  function ScanAsWritten(cands: seq<Element>, dayNum: string): Option<ScanResult>
  {
    ScanAsWrittenFrom(cands, dayNum, 0)
  }

  lemma {:induction false} AsWrittenAgreesFrom(cands: seq<Element>, dayNum: string, dayPart: string, i: nat)
    ensures ScanAsWrittenFrom(cands, dayNum, i).Some? ==>
              ScanAsWrittenFrom(cands, dayNum, i).value == ScanWith(cands, RoundFor(dayNum, dayPart), i)
    decreases |cands| - i
  {
    if i < |cands| {
      ExamineMeaning(cands[i], dayNum, dayPart);
      AsWrittenAgreesFrom(cands, dayNum, dayPart, i + 1);
    }
  }

  /** Where the scan as written does not raise, it agrees with the model. */
  lemma AsWrittenAgrees(cands: seq<Element>, dayNum: string, dayPart: string)
    ensures ScanAsWritten(cands, dayNum).Some? ==> ScanAsWritten(cands, dayNum).value == Scan(cands, dayNum, dayPart)
  {
    AsWrittenAgreesFrom(cands, dayNum, dayPart, 0);
  }

  /** A lone "15" before the "15 ○" cell: as written the scan raises; the
      model selects the "15" cell with no marker. */
  lemma Line211Raises()
    ensures var cands := [Element("15", true, Some(""), None, true), Element("15 ○", true, Some(""), None, true)];
            && ScanAsWritten(cands, "15") == None
            && Scan(cands, "15", "15") == ScanResult(Some(0), Flags(false, false))
  {
    var cands := [Element("15", true, Some(""), None, true), Element("15 ○", true, Some(""), None, true)];
    var t := Strip("15");
    assert t == "15";
    assert TokenAt(t, "15", 0);
    assert !HasAny(t, NoSlotMarks) by {
      forall k | 0 <= k < |NoSlotMarks| ensures !Contains(t, NoSlotMarks[k]) {
      }
    }
    assert !HasAny(t, SlotMarks) by {
      forall k | 0 <= k < |SlotMarks| ensures !Contains(t, SlotMarks[k]) {
      }
    }
    assert !HasAny(t, DashMarks) by {
      forall k | 0 <= k < |DashMarks| ensures !Contains(t, DashMarks[k]) {
      }
    }
    assert Contains(t, "15");
    assert ExamineAsWritten(cands[0], "15") == Unbound;
    assert Examine(cands[0], "15", "15") == Select(Flags(false, false));
  }
}

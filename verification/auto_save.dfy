/**
 * The editor's autosave: the status text and colour shown for a status and
 * the time of the last successful save, and the save state machine driven by
 * edits, save requests and save completions, taken one event at a time.
 */
module AutoSave {
  import opened Wrappers
  import opened Text

  // `AUTO_SAVE_STATUS`
  const Idle := "idle"
  const Pending := "pending"
  const Saving := "saving"
  const Success := "success"
  const Error := "error"

  /** `Math.floor((now - lastSaved) / 1000)`: whole seconds elapsed, rounded down (negative if the clock went back). */
  function ElapsedSeconds(lastSaved: int, now: int): (d: int)
    ensures d * 1000 <= now - lastSaved < d * 1000 + 1000
  {
    (now - lastSaved) / 1000
  }

  /** What the status text says, before it is rendered. */
  datatype Label =
    | NoText
    | SavingNow
    | JustSaved
    | SecondsAgo(seconds: int)
    | MinutesAgo(minutes: int)
    | HoursAgo(hours: int)
    | SaveFailed
    | Waiting
    | Saved

  /**
   * The label `getAutoSaveStatusText(status, lastSaved, now)` renders. With
   * no save yet only SAVING has a text; after one, a success is described by
   * how long ago it happened, in the largest whole unit.
   */
  function StatusLabel(status: string, lastSaved: Option<int>, now: int): (l: Label)
    ensures lastSaved.None? ==> (l == SavingNow <==> status == Saving) && (l != SavingNow ==> l == NoText)
    ensures l == SavingNow <==> status == Saving
    ensures lastSaved.Some? ==> l != NoText
    ensures lastSaved.Some? ==> (l == SaveFailed <==> status == Error) && (l == Waiting <==> status == Pending)
    ensures l == JustSaved <==> lastSaved.Some? && status == Success && now - lastSaved.value < 5000
    ensures l.SecondsAgo? ==> (lastSaved.Some?
      && l.seconds * 1000 <= now - lastSaved.value < l.seconds * 1000 + 1000 && l.seconds < 60
      && (status == Success ==> l.seconds >= 5))
    ensures l.MinutesAgo? ==> (lastSaved.Some? && status == Success
      && l.minutes * 60000 <= now - lastSaved.value < l.minutes * 60000 + 60000 && 1 <= l.minutes < 60)
    ensures l.HoursAgo? ==> (lastSaved.Some? && status == Success
      && l.hours * 3600000 <= now - lastSaved.value < l.hours * 3600000 + 3600000 && l.hours >= 1)
    ensures l == Saved ==> (lastSaved.Some? && now - lastSaved.value >= 60000
      && status != Saving && status != Success && status != Error && status != Pending)
  {
    if lastSaved.None? then
      if status == Saving then SavingNow else NoText
    else
      var d := ElapsedSeconds(lastSaved.value, now);
      if status == Saving then SavingNow
      else if status == Success then
        if d < 5 then JustSaved
        else if d < 60 then SecondsAgo(d)
        else if d < 3600 then MinutesAgo(d / 60)
        else HoursAgo(d / 3600)
      else if status == Error then SaveFailed
      else if status == Pending then Waiting
      else if d < 60 then SecondsAgo(d)
      else Saved
  }

  function Render(l: Label): string {
    match l
    case NoText => ""
    case SavingNow => "保存中..."
    case JustSaved => "刚刚已保存"
    case SecondsAgo(n) => IntToString(n) + "秒前已保存"
    case MinutesAgo(n) => IntToString(n) + "分钟前已保存"
    case HoursAgo(n) => IntToString(n) + "小时前已保存"
    case SaveFailed => "保存失败"
    case Waiting => "等待保存..."
    case Saved => "已保存"
  }

  /** Reads a status text back as the label it renders. */
  function ParseLabel(text: string): Label {
    if text == "" then NoText
    else if text == "保存中..." then SavingNow
    else if text == "刚刚已保存" then JustSaved
    else if text == "保存失败" then SaveFailed
    else if text == "等待保存..." then Waiting
    else if text == "已保存" then Saved
    else if IsSuffix("分钟前已保存", text) then MinutesAgo(ParseInt(text[..|text| - 6]))
    else if IsSuffix("小时前已保存", text) then HoursAgo(ParseInt(text[..|text| - 6]))
    else if IsSuffix("秒前已保存", text) then SecondsAgo(ParseInt(text[..|text| - 5]))
    else NoText
  }

  /** A rendered elapsed time starts with a digit or a minus sign, unlike every fixed text. */
  lemma ElapsedTextIsNotFixed(n: int, unit: string)
    ensures var text := IntToString(n) + unit;
      text != "" && text != "保存中..." && text != "刚刚已保存" && text != "保存失败"
      && text != "等待保存..." && text != "已保存"
  {
    var text := IntToString(n) + unit;
    assert text[0] == IntToString(n)[0];
    assert IsDigit(text[0]) || text[0] == '-';
  }

  /** The character just before "前已保存" names the unit. */
  lemma UnitOfElapsedText(n: int, unit: string)
    requires unit == "秒前已保存" || unit == "分钟前已保存" || unit == "小时前已保存"
    ensures var text := IntToString(n) + unit;
      && |text| >= 6
      && (IsSuffix("分钟前已保存", text) <==> unit == "分钟前已保存")
      && (IsSuffix("小时前已保存", text) <==> unit == "小时前已保存")
      && (IsSuffix("秒前已保存", text) <==> unit == "秒前已保存")
  {
    var text := IntToString(n) + unit;
    var k := |text| - 5;
    assert text[k] == unit[|unit| - 5];
    assert text[k..] == unit[|unit| - 5..];
  }

  lemma SecondsRoundTrip(n: int)
    ensures ParseLabel(IntToString(n) + "秒前已保存") == SecondsAgo(n)
  {
    var text := IntToString(n) + "秒前已保存";
    ElapsedTextIsNotFixed(n, "秒前已保存");
    UnitOfElapsedText(n, "秒前已保存");
    ParseIntToString(n);
    assert text[..|text| - 5] == IntToString(n);
  }

  lemma MinutesRoundTrip(n: int)
    ensures ParseLabel(IntToString(n) + "分钟前已保存") == MinutesAgo(n)
  {
    var text := IntToString(n) + "分钟前已保存";
    ElapsedTextIsNotFixed(n, "分钟前已保存");
    UnitOfElapsedText(n, "分钟前已保存");
    ParseIntToString(n);
    assert text[..|text| - 6] == IntToString(n);
  }

  lemma HoursRoundTrip(n: int)
    ensures ParseLabel(IntToString(n) + "小时前已保存") == HoursAgo(n)
  {
    var text := IntToString(n) + "小时前已保存";
    ElapsedTextIsNotFixed(n, "小时前已保存");
    UnitOfElapsedText(n, "小时前已保存");
    ParseIntToString(n);
    assert text[..|text| - 6] == IntToString(n);
  }

  /** Reading a rendered label back gives the label: the text tells apart every state it reports. */
  lemma RenderRoundTrip(l: Label)
    ensures ParseLabel(Render(l)) == l
  {
    match l
    case SecondsAgo(n) => SecondsRoundTrip(n);
    case MinutesAgo(n) => MinutesRoundTrip(n);
    case HoursAgo(n) => HoursRoundTrip(n);
    case _ =>
  }

  /** `getAutoSaveStatusText(status, lastSaved, currentTime)` */
  function GetAutoSaveStatusText(status: string, lastSaved: Option<int>, now: int): (text: string)
    ensures text == "" <==> lastSaved.None? && status != Saving
  {
    Render(StatusLabel(status, lastSaved, now))
  }

  /** A save that fails before any save succeeded shows no text at all. */
  lemma FirstFailureIsSilent(now: int)
    ensures GetAutoSaveStatusText(Error, None, now) == ""
  {
  }

  /** The colour the indicator takes. */
  datatype Tone = Gray | Blue | Green | Red | Yellow

  /**
   * `getAutoSaveStatusClass(status, lastSaved)`'s colour: gray until
   * something has been saved; after that blue while saving, green after a
   * success, red after a failure, yellow while a change waits, gray otherwise.
   */
  function StatusTone(status: string, lastSaved: Option<int>): (t: Tone)
    ensures lastSaved.None? ==> t == Gray
    ensures lastSaved.Some? ==>
      && (t == Blue <==> status == Saving)
      && (t == Green <==> status == Success)
      && (t == Red <==> status == Error)
      && (t == Yellow <==> status == Pending)
  {
    if lastSaved.None? then Gray
    else if status == Saving then Blue
    else if status == Success then Green
    else if status == Error then Red
    else if status == Pending then Yellow
    else Gray
  }

  function ClassName(t: Tone): string {
    match t
    case Gray => "bg-gray-50 text-gray-600 border-gray-200"
    case Blue => "bg-blue-50 text-blue-600 border-blue-200"
    case Green => "bg-green-50 text-green-600 border-green-200"
    case Red => "bg-red-50 text-red-600 border-red-200"
    case Yellow => "bg-yellow-50 text-yellow-600 border-yellow-200"
  }

  /** `getAutoSaveStatusClass(status, lastSaved)` */
  function GetAutoSaveStatusClass(status: string, lastSaved: Option<int>): string {
    ClassName(StatusTone(status, lastSaved))
  }

  /** Different colours have different class names. */
  lemma ClassNamesDistinct(a: Tone, b: Tone)
    requires ClassName(a) == ClassName(b)
    ensures a == b
  {
    assert ClassName(a)[3] == ClassName(b)[3];
    assert ClassName(a)[4] == ClassName(b)[4];
  }

  /**
   * Once something has been saved, colour and text agree: blue while saving,
   * red with the failure text, yellow with the waiting text, green with a
   * success described by its age.
   */
  lemma ToneMatchesLabel(status: string, saved: int, now: int)
    ensures var t := StatusTone(status, Some(saved));
      var l := StatusLabel(status, Some(saved), now);
      && (t == Blue <==> l == SavingNow)
      && (t == Red <==> l == SaveFailed)
      && (t == Yellow <==> l == Waiting)
      && (t == Green <==> status == Success && (l.JustSaved? || l.SecondsAgo? || l.MinutesAgo? || l.HoursAgo?))
  {
  }

  // ---------------------------------------------------------------- the indicator

  /** The indicator component as written asks for the class without `lastSaved`. */
  function IndicatorClassAsWritten(status: string): string {
    GetAutoSaveStatusClass(status, None)
  }

  lemma IndicatorIsAlwaysGray(status: string)
    ensures IndicatorClassAsWritten(status) == ClassName(Gray)
  {
  }

  /** Passing `lastSaved` through colours the indicator by status. */
  function IndicatorClass(status: string, lastSaved: Option<int>): (c: string)
    ensures lastSaved.Some? && status == Success ==> c == ClassName(Green)
    ensures lastSaved.Some? && status == Error ==> c == ClassName(Red)
    ensures lastSaved.Some? && status == Saving ==> c == ClassName(Blue)
    ensures lastSaved.Some? && status == Pending ==> c == ClassName(Yellow)
    ensures lastSaved.None? ==> c == ClassName(Gray)
  {
    GetAutoSaveStatusClass(status, lastSaved)
  }

  /** The icons the indicator can show. */
  datatype Icon = ClockIcon | LoaderIcon | CheckCircleIcon | AlertCircleIcon | SaveIcon

  /** A value a `switch` compares the status with (`===`): a string, or `undefined`. */
  datatype JsValue = Str(s: string) | Undefined

  /** `AUTO_SAVE_STATUS.SAVED`: the status table has no such entry, so the lookup is `undefined`. */
  const SavedEntry: JsValue := Undefined

  /** `getStatusIcon()` as written: its success case compares with `AUTO_SAVE_STATUS.SAVED`. */
  function StatusIconAsWritten(status: string): Icon {
    var v := Str(status);
    if v == Str(Pending) then ClockIcon
    else if v == Str(Saving) then LoaderIcon
    else if v == SavedEntry then CheckCircleIcon
    else if v == Str(Error) then AlertCircleIcon
    else SaveIcon
  }

  /** No status string is `undefined`: the success icon never shows, and a success gets the default icon. */
  lemma SuccessIconUnreachable(status: string)
    ensures StatusIconAsWritten(status) != CheckCircleIcon
    ensures StatusIconAsWritten(Success) == SaveIcon
  {
  }

  /** `getStatusIcon()` with the success case on `AUTO_SAVE_STATUS.SUCCESS`: each status its own icon. */
  function StatusIcon(status: string): (i: Icon)
    ensures i == ClockIcon <==> status == Pending
    ensures i == LoaderIcon <==> status == Saving
    ensures i == CheckCircleIcon <==> status == Success
    ensures i == AlertCircleIcon <==> status == Error
  {
    if status == Pending then ClockIcon
    else if status == Saving then LoaderIcon
    else if status == Success then CheckCircleIcon
    else if status == Error then AlertCircleIcon
    else SaveIcon
  }

  /** Once something has been saved, the icon and the colour name the same status. */
  lemma IconMatchesTone(status: string, saved: int)
    ensures var i, t := StatusIcon(status), StatusTone(status, Some(saved));
      && (i == ClockIcon <==> t == Yellow)
      && (i == LoaderIcon <==> t == Blue)
      && (i == CheckCircleIcon <==> t == Green)
      && (i == AlertCircleIcon <==> t == Red)
  {
  }

  // ---------------------------------------------------------------- the state machine

  /**
   * The hook's state: the status, when the last save succeeded, the
   * serialised data last saved successfully (`previousDataRef`) and the data
   * of the save in flight (`isSavingRef`).
   */
  datatype Editor = Editor(status: string, lastSaved: Option<int>, previous: string, inFlight: Option<string>)

  /** The state on mount: nothing saved, the initial data counts as unchanged. */
  function Mount(data: string): Editor {
    Editor(Idle, None, data, None)
  }

  /** How the save function's promise, and the success callback after it, ended. */
  datatype Outcome =
    | Resolved            // saved, and the success callback (if any) returned
    | Rejected            // the save function threw
    | CallbackThrew       // saved, but the success callback threw

  datatype Event =
    | Edit(data: string, enabled: bool)   // the data (serialised) or the enabled flag changed
    | Save(data: string)                  // the debounce timer fired, or a forced save, for this data
    | Complete(outcome: Outcome, now: int)

  function Step(e: Editor, ev: Event): (e': Editor)
    // Only a completed save moves the save time, and only a fully successful one the saved data.
    ensures e'.lastSaved != e.lastSaved ==>
      ev.Complete? && ev.outcome != Rejected && e.inFlight.Some? && e'.lastSaved == Some(ev.now)
    ensures e'.previous != e.previous ==>
      ev.Complete? && ev.outcome == Resolved && e.inFlight.Some? && e'.previous == e.inFlight.value
    // An edit marks the editor pending exactly when enabled and the data differs from what was last saved.
    ensures ev.Edit? ==> (e'.inFlight == e.inFlight
      && (e'.status == Pending <==> (ev.enabled && ev.data != e.previous) || e.status == Pending)
      && (!(ev.enabled && ev.data != e.previous) ==> e' == e))
    // A save requested while one is in flight changes nothing.
    ensures ev.Save? && e.inFlight.Some? ==> e' == e
    ensures ev.Save? && e.inFlight.None? ==> e'.status == Saving && e'.inFlight == Some(ev.data)
    // Completion clears the in-flight save whatever the outcome.
    ensures ev.Complete? && e.inFlight.Some? ==> (e'.inFlight.None? && (e'.status == Success <==> ev.outcome == Resolved)
      && (e'.status == Error <==> ev.outcome != Resolved))
    ensures ev.Complete? && e.inFlight.Some? && ev.outcome == Resolved ==> e'.previous == e.inFlight.value
    // The save time moves to the completion time when the data reached storage, even if the callback threw.
    ensures ev.Complete? && e.inFlight.Some? && ev.outcome != Rejected ==> e'.lastSaved == Some(ev.now)
    // A completion with no save in flight changes nothing.
    ensures ev.Complete? && e.inFlight.None? ==> e' == e
  {
    match ev
    case Edit(data, enabled) =>
      if enabled && data != e.previous then e.(status := Pending) else e
    case Save(data) =>
      if e.inFlight.Some? then e else e.(status := Saving, inFlight := Some(data))
    case Complete(outcome, now) =>
      if e.inFlight.None? then e
      else
        match outcome
        case Resolved => Editor(Success, Some(now), e.inFlight.value, None)
        case Rejected => e.(status := Error, inFlight := None)
        case CallbackThrew => e.(status := Error, lastSaved := Some(now), inFlight := None)
  }

  /** The states the hook can be in. */
  predicate Valid(e: Editor) {
    && (e.status == Saving ==> e.inFlight.Some?)
    && (e.status == Success ==> e.lastSaved.Some?)
    && (e.inFlight.Some? ==> e.status == Saving || e.status == Pending)
    && (e.status == Idle || e.status == Pending || e.status == Saving || e.status == Success || e.status == Error)
  }

  lemma StepKeepsValid(e: Editor, ev: Event)
    requires Valid(e)
    ensures Valid(Step(e, ev))
  {
  }

  function Run(e: Editor, events: seq<Event>): Editor
    decreases |events|
  {
    if events == [] then e else Run(Step(e, events[0]), events[1..])
  }

  /** Every state reachable from mount is valid. */
  lemma {:induction false} RunKeepsValid(e: Editor, events: seq<Event>)
    requires Valid(e)
    ensures Valid(Run(e, events))
    decreases |events|
  {
    if events != [] {
      StepKeepsValid(e, events[0]);
      RunKeepsValid(Step(e, events[0]), events[1..]);
    }
  }

  /** Once a save has succeeded, the indicator never goes back to having no text. */
  lemma {:induction false} SavedStaysSaved(e: Editor, events: seq<Event>)
    requires e.lastSaved.Some?
    ensures Run(e, events).lastSaved.Some?
    decreases |events|
  {
    if events != [] {
      SavedStaysSaved(Step(e, events[0]), events[1..]);
    }
  }

  /** After a failed save the same data still counts as changed, so the next edit to it is pending again. */
  lemma FailureKeepsDataDirty(previous: string, data: string, now: int)
    requires data != previous
    ensures var e := Run(Editor(Pending, None, previous, None), [Save(data), Complete(Rejected, now), Edit(data, true)]);
      e.status == Pending && e.previous == previous
  {
    var e0 := Editor(Pending, None, previous, None);
    var e1 := Step(e0, Save(data));
    var e2 := Step(e1, Complete(Rejected, now));
    assert Run(e0, [Save(data), Complete(Rejected, now), Edit(data, true)]) == Run(e1, [Complete(Rejected, now), Edit(data, true)]);
    assert Run(e1, [Complete(Rejected, now), Edit(data, true)]) == Run(e2, [Edit(data, true)]);
  }

  /**
   * A save requested while an earlier one is in flight is dropped: when the
   * earlier save succeeds the status is SUCCESS although the later data was
   * never saved.
   */
  lemma EditDuringSaveIsDropped(start: string, first: string, second: string, now: int)
    requires first != start && second != first
    ensures var e := Run(Mount(start), [Edit(first, true), Save(first), Edit(second, true), Save(second), Complete(Resolved, now)]);
      e.status == Success && e.previous == first && e.inFlight.None?
  {
    var e0 := Mount(start);
    var e1 := Step(e0, Edit(first, true));
    var e2 := Step(e1, Save(first));
    var e3 := Step(e2, Edit(second, true));
    var e4 := Step(e3, Save(second));
    var evs := [Edit(first, true), Save(first), Edit(second, true), Save(second), Complete(Resolved, now)];
    assert Run(e0, evs) == Run(e1, evs[1..]);
    assert Run(e1, evs[1..]) == Run(e2, evs[2..]);
    assert Run(e2, evs[2..]) == Run(e3, evs[3..]);
    assert Run(e3, evs[3..]) == Run(e4, evs[4..]);
    assert Run(e4, evs[4..]) == Run(Step(e4, evs[4]), []);
  }

  /**
   * When the save succeeds but the success callback throws, the save time
   * moves while the saved data does not: the indicator reads "保存失败" and the
   * same data counts as changed on the next edit.
   */
  lemma ThrowingCallbackKeepsDataDirty(previous: string, data: string, now: int)
    requires data != previous
    ensures var e := Run(Editor(Pending, None, previous, None), [Save(data), Complete(CallbackThrew, now)]);
      && e.lastSaved == Some(now) && e.previous == previous
      && GetAutoSaveStatusText(e.status, e.lastSaved, now) == "保存失败"
      && Step(e, Edit(data, true)).status == Pending
  {
    var e0 := Editor(Pending, None, previous, None);
    var e1 := Step(e0, Save(data));
    var e2 := Step(e1, Complete(CallbackThrew, now));
    assert Run(e0, [Save(data), Complete(CallbackThrew, now)]) == Run(e1, [Complete(CallbackThrew, now)]);
    assert Run(e1, [Complete(CallbackThrew, now)]) == Run(e2, []);
  }
}

/** The non-rendering part of the admin dashboard page: the form and
    selection state it keeps, and the handlers that change that state and
    talk to the server. Each handler is a pure transition. It returns the new
    state, the HTTP requests it issues in the order it issues them, and the
    alert it shows. The server's answer is a parameter of the handler. */
module AdminDashboard {
  import opened JsStrings
  import opened JsArrays

  datatype Option<+T> = None | Some(value: T)

  /** The React state of the page that the handlers read and write. */
  datatype State = State(
    doctorName: string,              // text of the "Doctor Name" field
    specialty: string,               // text of the "Specialty" field
    selectedDoctor: Option<string>,  // doctor whose slot dialog is open
    selectedDate: string,            // "YYYY-MM-DD" from the date field
    times: seq<string>,              // chosen times of day, "HH:MM"
    timeInput: string)               // text of the time field

  /** An HTTP call made through the page's API client. */
  datatype Request =
    | GetDoctors                                   // GET /doctors
    | PostDoctor(name: string, specialty: string)  // POST /doctors
    | DeleteDoctorRecord(id: string)               // DELETE /doctors/:id
    | PostSlot(doctorId: string, time: string)     // POST /slots

  /** The `alert` dialog a handler shows, if any. */
  datatype Alert =
    | NoAlert
    | NameRequired
    | DoctorCreated
    | CreateDoctorFailed(reason: string)
    | DeleteDoctorFailed
    | TimeAlreadyAdded
    | SlotsCreated(count: nat)
    | SlotsFailed

  /** How the server answered a request: success, or a rejection carrying
      the `error` field of the response body (if there was one) and the
      client's own error message. */
  datatype Response = Ok | Rejected(serverError: Option<string>, message: string)

  datatype Transition = Transition(next: State, issued: seq<Request>, alert: Alert)

  /** `new Date(text).toISOString()`: the instant a local date-time text
      denotes, or None where the date is invalid and a RangeError is thrown.
      It depends on the time zone, so it is a parameter of the model. */
  type ToInstant = string -> Option<string>

  /** What the page keeps true of its chosen times: strictly ascending
      (sorted, no time twice) and no empty entry. */
  predicate TimesInvariant(times: seq<string>)
  {
    StrictlyAscending(times) && "" !in times
  }

  /** The state the page starts in, given today's date. */
  function Init(today: string): (s: State)
    ensures TimesInvariant(s.times) && |s.times| == 2
    ensures s.selectedDoctor == None && s.selectedDate == today
    ensures s.doctorName == "" && s.specialty == "" && s.timeInput != ""
  {
    State("", "", None, today, ["09:00", "10:00"], "11:00")
  }

  /** `error.response?.data?.error || error.message`: a non-empty error
      field from the server wins over the client's message. */
  function FailureReason(response: Response): (reason: string)
    requires response.Rejected?
    ensures response.serverError.Some? && response.serverError.value != "" ==>
      reason == response.serverError.value
    ensures response.serverError == None || response.serverError.value == "" ==>
      reason == response.message
  {
    match response.serverError
    case Some(e) => if e != "" then e else response.message
    case None => response.message
  }

  /** Creating a doctor: refused when the name is empty after trimming;
      otherwise one POST with the name as typed, and on success both fields
      are cleared and the doctor list is fetched again. */
  function CreateDoctor(s: State, response: Response): (t: Transition)
    ensures Blank(s.doctorName) ==> t == Transition(s, [], NameRequired)
    ensures !Blank(s.doctorName) && response.Ok? ==>
      && t.issued == [PostDoctor(s.doctorName, s.specialty), GetDoctors]
      && t.next == s.(doctorName := "", specialty := "")
      && t.alert == DoctorCreated
    ensures !Blank(s.doctorName) && response.Rejected? ==>
      && t.issued == [PostDoctor(s.doctorName, s.specialty)]
      && t.next == s
      && t.alert == CreateDoctorFailed(FailureReason(response))
  {
    if Trim(s.doctorName) == "" then
      Transition(s, [], NameRequired)
    else if response.Ok? then
      Transition(s.(doctorName := "", specialty := ""),
                 [PostDoctor(s.doctorName, s.specialty), GetDoctors], DoctorCreated)
    else
      Transition(s, [PostDoctor(s.doctorName, s.specialty)],
                 CreateDoctorFailed(FailureReason(response)))
  }

  /** Deleting a doctor after the user answered the confirmation dialog. The
      form state never changes; only a confirmed deletion reaches the server. */
  function DeleteDoctor(s: State, doctorId: string, confirmed: bool, response: Response): (t: Transition)
    ensures t.next == s
    ensures !confirmed <==> t.issued == []
    ensures confirmed ==> t.issued[0] == DeleteDoctorRecord(doctorId)
    ensures confirmed && response.Ok? ==> t.issued[1..] == [GetDoctors] && t.alert == NoAlert
    ensures confirmed && response.Rejected? ==> |t.issued| == 1 && t.alert == DeleteDoctorFailed
    ensures !confirmed ==> t.alert == NoAlert
  {
    if !confirmed then Transition(s, [], NoAlert)
    else if response.Ok? then Transition(s, [DeleteDoctorRecord(doctorId), GetDoctors], NoAlert)
    else Transition(s, [DeleteDoctorRecord(doctorId)], DeleteDoctorFailed)
  }

  /** What re-sorting after an append does to a list that is already
      sorted, and to one that is also duplicate-free. */
  lemma ResortFacts(times: seq<string>, x: string)
    ensures multiset(Sort(times + [x])) == multiset(times) + multiset{x}
    ensures x in Sort(times + [x]) && |Sort(times + [x])| == |times| + 1
    ensures forall y :: y in Sort(times + [x]) <==> y in times || y == x
    ensures Sorted(times) ==> Sort(times + [x]) == Insert(x, times)
    ensures StrictlyAscending(times) && x !in times ==> StrictlyAscending(Sort(times + [x]))
  {
    var r := Sort(times + [x]);
    assert multiset(times + [x]) == multiset(times) + multiset{x};
    assert x in multiset(r);
    assert |r| == |multiset(r)|;
    forall y ensures y in r <==> y in times || y == x {
      assert y in r <==> y in multiset(r);
    }
    StrictlyAscendingIff(times);
    if Sorted(times) {
      SortAppendIsInsert(times, x);
      if StrictlyAscending(times) && x !in times {
        InsertKeepsStrictlyAscending(x, times);
      }
    }
  }

  /** Adding the time in the time field to the chosen times. */
  function AddTime(s: State): (t: Transition)
    ensures t.issued == []
    ensures s.timeInput == "" ==> t == Transition(s, [], NoAlert)
    ensures s.timeInput != "" && s.timeInput in s.times ==>
      t == Transition(s, [], TimeAlreadyAdded)
    ensures s.timeInput != "" && s.timeInput !in s.times ==>
      && t.next == s.(times := t.next.times, timeInput := "")
      && t.alert == NoAlert
      && multiset(t.next.times) == multiset(s.times) + multiset{s.timeInput}
      && Sorted(t.next.times)
      && s.timeInput in t.next.times
      && |t.next.times| == |s.times| + 1
    ensures s.timeInput != "" && s.timeInput !in s.times && Sorted(s.times) ==>
      t.next.times == Insert(s.timeInput, s.times)
    ensures StrictlyAscending(s.times) ==> StrictlyAscending(t.next.times)
    ensures "" !in s.times ==> "" !in t.next.times
  {
    var x := s.timeInput;
    if x == "" then Transition(s, [], NoAlert)
    else if x in s.times then Transition(s, [], TimeAlreadyAdded)
    else
      ResortFacts(s.times, x);
      Transition(s.(times := Sort(s.times + [x]), timeInput := ""), [], NoAlert)
  }

  /** Removing one time from the chosen times. */
  function RemoveTime(s: State, time: string): (t: Transition)
    ensures t.issued == [] && t.alert == NoAlert
    ensures t.next == s.(times := t.next.times)
    ensures forall y :: y in t.next.times <==> y in s.times && y != time
    ensures multiset(t.next.times) == multiset(s.times)[time := 0]
    ensures IsSubsequence(t.next.times, s.times)
    ensures time !in s.times ==> t.next == s
    ensures StrictlyAscending(s.times) ==> StrictlyAscending(t.next.times)
  {
    WithoutKeepsTheRest(s.times, time);
    WithoutAbsent(s.times, time);
    WithoutKeepsStrictlyAscending(s.times, time);
    Transition(s.(times := Without(s.times, time)), [], NoAlert)
  }

  /** In a strictly ascending list, removing the time at index `i` takes out
      that position and keeps every other time in its place. */
  lemma RemoveTimeAt(s: State, i: nat)
    requires StrictlyAscending(s.times) && i < |s.times|
    ensures RemoveTime(s, s.times[i]).next.times == s.times[..i] + s.times[i + 1..]
  {
    StrictlyAscendingIff(s.times);
    WithoutRemovesOnePosition(s.times, i);
  }

  /** Adding a new time and then removing it gives back the times. */
  lemma AddThenRemove(s: State)
    requires StrictlyAscending(s.times)
    requires s.timeInput != "" && s.timeInput !in s.times
    ensures RemoveTime(AddTime(s).next, s.timeInput).next.times == s.times
  {
    StrictlyAscendingIff(s.times);
    WithoutInsert(s.timeInput, s.times);
  }

  /** Removing a chosen time and typing it in again gives back the times. */
  lemma RemoveThenAdd(s: State, i: nat)
    requires StrictlyAscending(s.times) && i < |s.times| && s.times[i] != ""
    ensures
      var removed := RemoveTime(s, s.times[i]).next;
      AddTime(removed.(timeInput := s.times[i])).next.times == s.times
  {
    var x := s.times[i];
    var removed := RemoveTime(s, x).next;
    RemoveTimeAt(s, i);
    StrictlyAscendingIff(removed.times);
    var typed := removed.(timeInput := x);
    assert typed.times == removed.times && typed.timeInput == x;
    assert AddTime(typed).next.times == Insert(x, removed.times);
    InsertIntoGap(s.times, i);
  }

  /** JavaScript truthiness of the selected doctor id: null and "" are false. */
  predicate Truthy(id: Option<string>)
  {
    id.Some? && id.value != ""
  }

  /** The text handed to `new Date`: the date, "T", then the time of day. */
  function LocalDateTime(date: string, time: string): (text: string)
    ensures |text| == |date| + 1 + |time|
    ensures text[..|date|] == date && text[|date|] == 'T' && text[|date| + 1..] == time
  {
    date + "T" + time
  }

  /** Different times on the same date give different date-time texts, so
      the chosen times, which never repeat, are handed to `new Date` as
      pairwise different texts. */
  lemma LocalDateTimeInjective(date: string, a: string, b: string)
    ensures LocalDateTime(date, a) == LocalDateTime(date, b) ==> a == b
  {
  }

  /** Every chosen time on `date` denotes a valid instant. */
  predicate AllConvert(date: string, times: seq<string>, toInstant: ToInstant)
  {
    forall i | 0 <= i < |times| :: toInstant(LocalDateTime(date, times[i])).Some?
  }

  /** The POST /slots requests `selectedTimes.map(...)` issues, in list order.
      The RangeError of an invalid date ends the map, so the requests stop
      before the first time that does not convert. */
  function SlotRequests(doctorId: string, date: string, times: seq<string>, toInstant: ToInstant): (rs: seq<Request>)
    ensures |rs| <= |times|
    ensures forall i | 0 <= i < |rs| ::
      && toInstant(LocalDateTime(date, times[i])).Some?
      && rs[i] == PostSlot(doctorId, toInstant(LocalDateTime(date, times[i])).value)
    ensures |rs| < |times| ==> toInstant(LocalDateTime(date, times[|rs|])).None?
  {
    if times == [] then []
    else
      match toInstant(LocalDateTime(date, times[0]))
      case None => []
      case Some(instant) =>
        [PostSlot(doctorId, instant)] + SlotRequests(doctorId, date, times[1..], toInstant)
  }

  /** Saving the chosen times as slots of the selected doctor: one POST per
      time, all issued before any answer arrives. `allCreated` says whether
      every issued request succeeded; when none was issued, `Promise.all([])`
      resolves, so the save succeeds whatever `allCreated` says. */
  function SaveSlots(s: State, toInstant: ToInstant, allCreated: bool): (t: Transition)
    ensures t.next.times == s.times
    ensures !Truthy(s.selectedDoctor) ==> t == Transition(s, [], NoAlert)
    ensures Truthy(s.selectedDoctor) ==>
      var rs := SlotRequests(s.selectedDoctor.value, s.selectedDate, s.times, toInstant);
      |rs| <= |t.issued| && t.issued[..|rs|] == rs
    ensures Truthy(s.selectedDoctor) && AllConvert(s.selectedDate, s.times, toInstant) ==>
      && |s.times| <= |t.issued|
      && forall i | 0 <= i < |s.times| ::
           t.issued[i] == PostSlot(s.selectedDoctor.value,
                                   toInstant(LocalDateTime(s.selectedDate, s.times[i])).value)
    ensures Truthy(s.selectedDoctor) && !AllConvert(s.selectedDate, s.times, toInstant) ==>
      && t.issued == SlotRequests(s.selectedDoctor.value, s.selectedDate, s.times, toInstant)
      && |t.issued| < |s.times|
      && t.next == s && t.alert == SlotsFailed
    ensures Truthy(s.selectedDoctor) && AllConvert(s.selectedDate, s.times, toInstant)
            && (allCreated || s.times == []) ==>
      && t.next == s.(selectedDoctor := None)
      && t.alert == SlotsCreated(|s.times|)
      && |t.issued| == |s.times| + 1 && t.issued[|s.times|] == GetDoctors
    ensures Truthy(s.selectedDoctor) && AllConvert(s.selectedDate, s.times, toInstant)
            && !allCreated && s.times != [] ==>
      t.next == s && t.alert == SlotsFailed && |t.issued| == |s.times|
  {
    if !Truthy(s.selectedDoctor) then Transition(s, [], NoAlert)
    else
      var rs := SlotRequests(s.selectedDoctor.value, s.selectedDate, s.times, toInstant);
      if |rs| < |s.times| then Transition(s, rs, SlotsFailed)
      else if !allCreated && rs != [] then Transition(s, rs, SlotsFailed)
      else
        assert (rs + [GetDoctors])[..|rs|] == rs;
        Transition(s.(selectedDoctor := None), rs + [GetDoctors], SlotsCreated(|s.times|))
  }

  /** What the user can do on the page. The outcome of a server call and the
      answer to the confirmation dialog travel with the event. */
  datatype Event =
    | EditDoctorName(name: string)
    | EditSpecialty(specialty: string)
    | PickDate(date: string)
    | EditTimeInput(value: string)
    | OpenSlots(doctorId: string)
    | CloseSlots
    | CreateDoctorClicked(response: Response)
    | DeleteDoctorClicked(doctorId: string, confirmed: bool, response: Response)
    | AddTimeClicked
    | RemoveTimeClicked(time: string)
    | SaveSlotsClicked(allCreated: bool)
  {
    /** The events whose handler may call the server. */
    predicate Remote()
    {
      CreateDoctorClicked? || DeleteDoctorClicked? || SaveSlotsClicked?
    }
  }

  /** One event: the input fields' change handlers, the two buttons that
      open and close the slot dialog, and the five handlers above. */
  function Step(s: State, e: Event, toInstant: ToInstant): (t: Transition)
    ensures !e.Remote() ==> t.issued == []
    ensures TimesInvariant(s.times) ==> TimesInvariant(t.next.times)
  {
    match e
    case EditDoctorName(name) => Transition(s.(doctorName := name), [], NoAlert)
    case EditSpecialty(specialty) => Transition(s.(specialty := specialty), [], NoAlert)
    case PickDate(date) => Transition(s.(selectedDate := date), [], NoAlert)
    case EditTimeInput(value) => Transition(s.(timeInput := value), [], NoAlert)
    case OpenSlots(id) => Transition(s.(selectedDoctor := Some(id)), [], NoAlert)
    case CloseSlots => Transition(s.(selectedDoctor := None), [], NoAlert)
    case CreateDoctorClicked(response) => CreateDoctor(s, response)
    case DeleteDoctorClicked(id, confirmed, response) => DeleteDoctor(s, id, confirmed, response)
    case AddTimeClicked => AddTime(s)
    case RemoveTimeClicked(time) => RemoveTime(s, time)
    case SaveSlotsClicked(allCreated) => SaveSlots(s, toInstant, allCreated)
  }

  /** A session: the state after the events, every request issued, in order,
      and the alert of each event. */
  datatype Trace = Trace(final: State, log: seq<Request>, alerts: seq<Alert>)

  /** Feeding inputs one at a time to a transition function, starting in
      `s`: the state after the last one, every request issued, in order, and
      one alert per input. */
  function Replay<E>(s: State, inputs: seq<E>, step: (State, E) -> Transition): (tr: Trace)
    ensures |tr.alerts| == |inputs|
    decreases |inputs|
  {
    if inputs == [] then Trace(s, [], [])
    else
      var t := step(s, inputs[0]);
      var rest := Replay(t.next, inputs[1..], step);
      Trace(rest.final, t.issued + rest.log, [t.alert] + rest.alerts)
  }

  /** Replaying two batches of inputs one after the other is replaying the
      first and then the second from where the first ended, with the
      requests and alerts of the two concatenated. */
  lemma {:induction false} ReplaySplit<E>(s: State, first: seq<E>, second: seq<E>, step: (State, E) -> Transition)
    ensures
      var a := Replay(s, first, step);
      var b := Replay(a.final, second, step);
      Replay(s, first + second, step) == Trace(b.final, a.log + b.log, a.alerts + b.alerts)
    decreases |first|
  {
    if first == [] {
      assert first + second == second;
    } else {
      var t := step(s, first[0]);
      assert (first + second)[0] == first[0];
      assert (first + second)[1..] == first[1..] + second;
      ReplaySplit(t.next, first[1..], second, step);
      var a := Replay(t.next, first[1..], step);
      var b := Replay(a.final, second, step);
      assert t.issued + (a.log + b.log) == (t.issued + a.log) + b.log;
      assert [t.alert] + (a.alerts + b.alerts) == ([t.alert] + a.alerts) + b.alerts;
    }
  }

  /** A session on the page: the events replayed through `Step`. */
  function Run(s: State, events: seq<Event>, toInstant: ToInstant): (tr: Trace)
    ensures |tr.alerts| == |events|
  {
    Replay(s, events, (st: State, e: Event) => Step(st, e, toInstant))
  }

  /** A session split in two: the events of both parts, run one after the
      other, end where the second part ends when started from the end of the
      first, and issue the two parts' requests and alerts in turn. */
  lemma RunSplit(s: State, first: seq<Event>, second: seq<Event>, toInstant: ToInstant)
    ensures
      var a := Run(s, first, toInstant);
      var b := Run(a.final, second, toInstant);
      Run(s, first + second, toInstant) == Trace(b.final, a.log + b.log, a.alerts + b.alerts)
  {
    ReplaySplit(s, first, second, (st: State, e: Event) => Step(st, e, toInstant));
  }

  lemma {:induction false} RunKeepsTimesInvariant(s: State, events: seq<Event>, toInstant: ToInstant)
    requires TimesInvariant(s.times)
    ensures TimesInvariant(Run(s, events, toInstant).final.times)
    decreases |events|
  {
    if events != [] {
      RunKeepsTimesInvariant(Step(s, events[0], toInstant).next, events[1..], toInstant);
    }
  }

  /** In every session, whatever the user does and however the server
      answers, the chosen times stay strictly ascending (sorted and free of
      duplicates) and never include an empty entry. */
  lemma ReachableTimesInvariant(today: string, events: seq<Event>, toInstant: ToInstant)
    ensures TimesInvariant(Run(Init(today), events, toInstant).final.times)
  {
    RunKeepsTimesInvariant(Init(today), events, toInstant);
  }

  /** A session in which no button that calls the server is pressed issues
      no request. */
  lemma {:induction false} LocalSessionIssuesNothing(s: State, events: seq<Event>, toInstant: ToInstant)
    requires forall i | 0 <= i < |events| :: !events[i].Remote()
    ensures Run(s, events, toInstant).log == []
    decreases |events|
  {
    if events != [] {
      LocalSessionIssuesNothing(Step(s, events[0], toInstant).next, events[1..], toInstant);
    }
  }
}

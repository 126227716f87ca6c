/**
 * The booking page (src/pages/Index.tsx): the page's state, the handlers the widgets
 * call, and its three effects. Each asynchronous effect is split in two: Begin does what
 * happens before the `await` and returns what the effect's closure captured, Complete does
 * what happens after it, given the HTTP outcome. The environment decides when effects run
 * and in which order their completions arrive; nothing here discards a late completion.
 */
module IndexPage {
  import opened Wrappers
  import opened Dates
  import opened Api
  import CalendarHeader
  import MonthView

  /** A dentist load in flight: the selection the effect saw when it started. */
  datatype DentistsLoad = DentistsLoad(capturedSelection: Option<string>)

  /** An availability load in flight: the formatted date and the dentist id it asked for. */
  datatype AvailabilityLoad = AvailabilityLoad(date: string, dentistId: string)

  /** What the right-hand card shows. */
  datatype Panel = ConfirmationPanel | FormPanel | InstructionsPanel

  /** `dentists.find(d => d.id === id) || null`: the first dentist with that id. */
  function FindDentist(ds: seq<Dentist>, id: string): (r: Option<Dentist>)
    ensures r.None? <==> forall i :: 0 <= i < |ds| ==> ds[i].id != id
    ensures r.Some? ==> r.value in ds && r.value.id == id
  {
    if ds == [] then None
    else if ds[0].id == id then Some(ds[0])
    else
      assert forall i :: 0 <= i < |ds| - 1 ==> ds[1..][i] == ds[i + 1];
      FindDentist(ds[1..], id)
  }

  /** The dentist found is the entry at the first index holding the id. */
  lemma {:induction false} FindDentistIsFirst(ds: seq<Dentist>, id: string, k: int)
    requires 0 <= k < |ds| && ds[k].id == id
    requires forall j :: 0 <= j < k ==> ds[j].id != id
    ensures FindDentist(ds, id) == Some(ds[k])
  {
    if k > 0 {
      FindDentistIsFirst(ds[1..], id, k - 1);
    }
  }

  /** The availability request for a selected day reads back as that day's formatted date
      and the dentist id: formatDate never writes the '&' that would split the query. */
  lemma AvailabilityRequestReadsBack(d: Date, dentistId: string)
    requires ValidDate(d) && dentistId != ""
    ensures var url := AvailabilityRequest(FormatDate(d), Some(dentistId)).url;
      |url| >= |AvailabilityPrefix| &&
      ParseAvailabilityQuery(url) == (FormatDate(d), Some("dentistId=" + dentistId))
  {
    FormatDateCharacters(d);
    AvailabilityUrlRoundTrip(FormatDate(d), Some(dentistId));
  }

  class BookingSession {
    /** currentDate: the month the calendar shows (only its year and month are read). */
    var currentMonth: YearMonth
    var selectedDate: Date
    var dentists: seq<Dentist>
    /** selectedDentist: the chosen dentist id, or null. */
    var selectedDentist: Option<string>
    /** selectedDentistObj: the dentist record resolved from the id. */
    var selectedDentistObj: Option<Dentist>
    var availableSlots: seq<string>
    var selectedTime: Option<string>
    var isLoadingSlots: bool
    var isBookingAppointment: bool
    var appointmentResponse: Option<AppointmentResponse>
    var patientInfo: Option<Patient>

    /** The calendar cursors are real dates, and while slots load the slot list is empty. */
    predicate Valid()
      reads this
    {
      ValidMonth(currentMonth) && ValidDate(selectedDate)
      && (isLoadingSlots ==> availableSlots == [])
    }

    /** The page's initial state; now is the moment the page mounts. */
    constructor (now: Date)
      requires ValidDate(now)
      ensures Valid()
      ensures currentMonth == MonthOf(now) && selectedDate == now
      ensures dentists == [] && selectedDentist == None && selectedDentistObj == None
      ensures availableSlots == [] && selectedTime == None
      ensures !isLoadingSlots && !isBookingAppointment
      ensures appointmentResponse == None && patientInfo == None
    {
      currentMonth := MonthOf(now);
      selectedDate := now;
      dentists := [];
      selectedDentist := None;
      selectedDentistObj := None;
      availableSlots := [];
      selectedTime := None;
      isLoadingSlots := false;
      isBookingAppointment := false;
      appointmentResponse := None;
      patientInfo := None;
    }

    // -------------------------------------------------------------------------
    // Effect 1: load the dentists (on mount and whenever selectedDentist changes)

    /** Starts loading the dentists: nothing changes yet; the closure keeps the selection. */
    method BeginLoadDentists() returns (load: DentistsLoad, request: HttpRequest)
      ensures load.capturedSelection == selectedDentist
      ensures request == DentistsRequest()
    {
      load := DentistsLoad(selectedDentist);
      request := DentistsRequest();
    }

    /** Stores the list and, when the list is non-empty and the captured selection was
        empty, selects the first dentist. */
    method CompleteLoadDentists(load: DentistsLoad, outcome: HttpOutcome<seq<Dentist>>)
      requires Valid()
      modifies this`dentists, this`selectedDentist
      ensures Valid()
      ensures dentists == FetchDentists(outcome)
      ensures selectedDentist ==
        if |dentists| > 0 && !Present(load.capturedSelection) then Some(dentists[0].id)
        else old(selectedDentist)
    {
      var data := FetchDentists(outcome);
      dentists := data;
      if |data| > 0 && !Present(load.capturedSelection) {
        selectedDentist := Some(data[0].id);
      }
    }

    // -------------------------------------------------------------------------
    // Effect 2: load the slots (whenever selectedDate or selectedDentist changes)

    /** Without a dentist nothing happens. Otherwise the slots and the time are cleared,
        loading is set, and the request for the selected date and dentist goes out. */
    method BeginLoadAvailability() returns (load: Option<AvailabilityLoad>, request: Option<HttpRequest>)
      requires Valid()
      modifies this`isLoadingSlots, this`availableSlots, this`selectedTime
      ensures Valid()
      ensures load.None? <==> !Present(selectedDentist)
      ensures load.None? ==> request.None? && isLoadingSlots == old(isLoadingSlots)
      ensures load.None? ==> availableSlots == old(availableSlots) && selectedTime == old(selectedTime)
      ensures load.Some? ==> isLoadingSlots && availableSlots == [] && selectedTime == None
      ensures load.Some? ==> load.value == AvailabilityLoad(FormatDate(selectedDate), selectedDentist.value)
      ensures load.Some? ==> request == Some(AvailabilityRequest(load.value.date, selectedDentist))
    {
      if !Present(selectedDentist) {
        return None, None;
      }
      var formattedDate := FormatDate(selectedDate);
      load := Some(AvailabilityLoad(formattedDate, selectedDentist.value));
      request := Some(AvailabilityRequest(formattedDate, selectedDentist));
      isLoadingSlots := true;
      availableSlots := [];
      selectedTime := None;
    }

    /** Stores the slots of the response (none on failure) and clears loading; the
        selected time is left alone. */
    method CompleteLoadAvailability(load: AvailabilityLoad, outcome: HttpOutcome<AvailabilityResponse>)
      requires Valid()
      modifies this`availableSlots, this`isLoadingSlots
      ensures Valid()
      ensures availableSlots == FetchAvailability(load.date, Some(load.dentistId), outcome).availableSlots
      ensures !IsOk(outcome) ==> availableSlots == []
      ensures !isLoadingSlots
    {
      var data := FetchAvailability(load.date, Some(load.dentistId), outcome);
      availableSlots := data.availableSlots;
      isLoadingSlots := false;
    }

    // -------------------------------------------------------------------------
    // Effect 3: resolve the dentist record (whenever selectedDentist or dentists change)

    method ResolveSelectedDentist()
      requires Valid()
      modifies this`selectedDentistObj
      ensures Valid()
      ensures selectedDentistObj ==
        if Present(selectedDentist) then FindDentist(dentists, selectedDentist.value) else None
      ensures selectedDentistObj.Some? ==>
        (selectedDentistObj.value in dentists && Present(selectedDentist)
         && selectedDentistObj.value.id == selectedDentist.value)
    {
      if Present(selectedDentist) {
        selectedDentistObj := FindDentist(dentists, selectedDentist.value);
      } else {
        selectedDentistObj := None;
      }
    }

    // -------------------------------------------------------------------------
    // Handlers

    /** handleDateChange: moves the calendar to another month. */
    method HandleDateChange(month: YearMonth)
      requires Valid() && ValidMonth(month)
      modifies this`currentMonth
      ensures Valid() && currentMonth == month
    {
      currentMonth := month;
    }

    /** handleDateSelect: any day passed in becomes the selection. */
    method HandleDateSelect(date: Date)
      requires Valid() && ValidDate(date)
      modifies this`selectedDate
      ensures Valid() && selectedDate == date
    {
      selectedDate := date;
    }

    /** handleDentistChange: any id, or null, becomes the selection. */
    method HandleDentistChange(dentistId: Option<string>)
      requires Valid()
      modifies this`selectedDentist
      ensures Valid() && selectedDentist == dentistId
    {
      selectedDentist := dentistId;
    }

    /** handleTimeSelect: the time becomes the selection, unchecked against the slots. */
    method HandleTimeSelect(time: string)
      requires Valid()
      modifies this`selectedTime
      ensures Valid() && selectedTime == Some(time)
    {
      selectedTime := Some(time);
    }

    /** The calendar header's buttons as the page wires them: previous and next move the
        visible month, Today selects now and leaves the visible month where it is. */
    method PressHeaderButton(b: CalendarHeader.Button, now: Date)
      requires Valid() && ValidDate(now)
      modifies this`currentMonth, this`selectedDate
      ensures Valid()
      ensures b == CalendarHeader.TodayButton ==> currentMonth == old(currentMonth) && selectedDate == now
      ensures b == CalendarHeader.PreviousButton ==>
        (currentMonth == CalendarHeader.PreviousMonth(old(currentMonth)) && selectedDate == old(selectedDate))
      ensures b == CalendarHeader.NextButton ==>
        (currentMonth == CalendarHeader.NextMonth(old(currentMonth)) && selectedDate == old(selectedDate))
    {
      var callback := CalendarHeader.Press(currentMonth, b);
      match callback
      case OnDateChange(month) =>
        HandleDateChange(month);
      case OnTodayClick =>
        HandleDateSelect(now);
    }

    /** handleAppointmentSubmit up to the await: without a dentist or a time nothing changes;
        otherwise booking starts, the patient is recorded and the request is built. */
    method BeginAppointmentSubmit(patient: Patient) returns (request: Option<AppointmentRequest>, http: Option<HttpRequest>)
      requires Valid()
      modifies this`isBookingAppointment, this`patientInfo
      ensures Valid()
      ensures request.None? <==> !Present(selectedDentist) || !Present(selectedTime)
      ensures request.None? ==> isBookingAppointment == old(isBookingAppointment)
      ensures request.None? ==> patientInfo == old(patientInfo)
      ensures request.Some? ==> isBookingAppointment && patientInfo == Some(patient)
      ensures request.Some? ==>
        (request.value == AppointmentRequest(selectedDentist.value, FormatDate(selectedDate), selectedTime.value, patient))
    ensures request.None? ==> http.None?
    ensures request.Some? ==> http == Some(BookingRequest(request.value))
    {
      if !Present(selectedDentist) || !Present(selectedTime) {
        return None, None;
      }
      var appointment := AppointmentRequest(selectedDentist.value, FormatDate(selectedDate), selectedTime.value, patient);
      request := Some(appointment);
      http := Some(BookingRequest(appointment));
      isBookingAppointment := true;
      patientInfo := Some(patient);
    }

    /** handleAppointmentSubmit after the await: booking ends; a confirmation is stored,
        a failure leaves the response as it was. */
    method CompleteAppointmentSubmit(request: AppointmentRequest, outcome: HttpOutcome<AppointmentResponse>)
      requires Valid()
      modifies this`isBookingAppointment, this`appointmentResponse
      ensures Valid()
      ensures !isBookingAppointment
      ensures IsOk(outcome) ==> appointmentResponse == Some(outcome.body)
      ensures !IsOk(outcome) ==> appointmentResponse == old(appointmentResponse)
    {
      var response := BookAppointment(request, outcome);
      isBookingAppointment := false;
      if response.Some? {
        appointmentResponse := response;
      }
    }

    /** handleResetBooking: clears the time, the patient and the response. */
    method HandleResetBooking()
      requires Valid()
      modifies this`selectedTime, this`patientInfo, this`appointmentResponse
      ensures Valid()
      ensures selectedTime == None && patientInfo == None && appointmentResponse == None
    {
      selectedTime := None;
      patientInfo := None;
      appointmentResponse := None;
    }

    // -------------------------------------------------------------------------
    // View selection

    /** The right-hand card: the confirmation when a response and a patient are held, else
        the form when a time is selected, else the instructions. */
    function CurrentPanel(): (p: Panel)
      reads this
      ensures p == ConfirmationPanel <==> appointmentResponse.Some? && patientInfo.Some?
      ensures p == FormPanel <==> Present(selectedTime) && !(appointmentResponse.Some? && patientInfo.Some?)
      ensures p == InstructionsPanel <==> !Present(selectedTime) && !(appointmentResponse.Some? && patientInfo.Some?)
    {
      var showConfirmation := appointmentResponse.Some? && patientInfo.Some?;
      var showForm := Present(selectedTime) && !showConfirmation;
      if showConfirmation then ConfirmationPanel else if showForm then FormPanel else InstructionsPanel
    }

    /** The month grid as the page renders it, with today's day passed in. */
    function Grid(now: Date): (cells: seq<MonthView.Cell>)
      reads this
      requires Valid()
      ensures |cells| == MonthView.GridSize
    {
      MonthView.Cells(FirstOfMonth(currentMonth), selectedDate, now)
    }
  }

  // ---------------------------------------------------------------------------
  // Sequences of steps, checked against the contracts above

  /** Choosing "All Dentists" re-runs the dentist load, which selects the first dentist again. */
  method AllDentistsIsOverridden(s: BookingSession, data: seq<Dentist>)
    requires s.Valid() && |data| > 0
    modifies s
    ensures s.Valid() && s.dentists == data && s.selectedDentist == Some(data[0].id)
  {
    s.HandleDentistChange(None);
    var load, _ := s.BeginLoadDentists();
    s.CompleteLoadDentists(load, Response(200, data));
  }

  /** Clicking a cell of the grid selects that cell's day, whatever day it is, and that
      cell is then the one marked selected. */
  method ClickCell(s: BookingSession, now: Date, i: int)
    requires s.Valid() && 0 <= i < MonthView.GridSize
    modifies s
    ensures s.Valid()
    ensures s.selectedDate == MonthView.CalendarDays(FirstOfMonth(s.currentMonth))[i]
    ensures s.currentMonth == old(s.currentMonth)
    ensures s.Grid(now)[i].isSelectedDay
  {
    var cells := s.Grid(now);
    MonthView.CalendarDaysFacts(FirstOfMonth(s.currentMonth));
    s.HandleDateSelect(cells[i].date);
  }

  /** A booking whose request fails ends with the form shown again and the time still set. */
  method FailedBookingShowsForm(s: BookingSession, patient: Patient, status: int)
    requires s.Valid() && Present(s.selectedDentist) && Present(s.selectedTime)
    requires s.appointmentResponse == None
    requires !(200 <= status <= 299)
    modifies s
    ensures s.Valid() && !s.isBookingAppointment
    ensures s.selectedTime == old(s.selectedTime) && s.patientInfo == Some(patient)
    ensures s.appointmentResponse == None && s.CurrentPanel() == FormPanel
  {
    var request, _ := s.BeginAppointmentSubmit(patient);
    s.CompleteAppointmentSubmit(request.value, Response(status, AppointmentResponse("", "")));
  }

  /** A submission with a dentist and a time POSTs the appointment to /appointments; a
      successful response then shows the confirmation for the recorded patient. */
  method BookSucceeds(s: BookingSession, patient: Patient, confirmation: AppointmentResponse)
    returns (http: Option<HttpRequest>)
    requires s.Valid() && Present(s.selectedDentist) && Present(s.selectedTime)
    modifies s
    ensures s.Valid() && !s.isBookingAppointment
    ensures http.Some? && http.value.verb == Post && http.value.body.Some?
    ensures s.selectedDentist == Some(http.value.body.value.dentistId)
    ensures http.value.body.value.date == FormatDate(s.selectedDate) && http.value.body.value.patient == patient
    ensures s.appointmentResponse == Some(confirmation) && s.patientInfo == Some(patient)
    ensures s.CurrentPanel() == ConfirmationPanel
  {
    var request;
    request, http := s.BeginAppointmentSubmit(patient);
    s.CompleteAppointmentSubmit(request.value, Response(200, confirmation));
  }

  /** A successful booking shows the confirmation; closing it returns to the instructions
      with the date, the dentist, the dentist list and the slots untouched. */
  method BookThenReset(s: BookingSession, patient: Patient, confirmation: AppointmentResponse)
    requires s.Valid() && Present(s.selectedDentist) && Present(s.selectedTime)
    modifies s
    ensures s.Valid()
    ensures s.CurrentPanel() == InstructionsPanel && s.selectedTime == None
    ensures s.selectedDate == old(s.selectedDate) && s.selectedDentist == old(s.selectedDentist)
    ensures s.dentists == old(s.dentists) && s.availableSlots == old(s.availableSlots)
  {
    var request, _ := s.BeginAppointmentSubmit(patient);
    s.CompleteAppointmentSubmit(request.value, Response(201, confirmation));
    assert s.CurrentPanel() == ConfirmationPanel;
    s.HandleResetBooking();
  }

  /** Changing the date with a dentist selected clears the time and slots until the
      response arrives, which fills the slots and leaves the time cleared. */
  method ReloadSlotsForDate(s: BookingSession, date: Date, outcome: HttpOutcome<AvailabilityResponse>)
    requires s.Valid() && ValidDate(date) && Present(s.selectedDentist)
    modifies s
    ensures s.Valid() && s.selectedDate == date && !s.isLoadingSlots && s.selectedTime == None
    ensures s.availableSlots ==
      FetchAvailability(FormatDate(date), s.selectedDentist, outcome).availableSlots
  {
    s.HandleDateSelect(date);
    var load, _ := s.BeginLoadAvailability();
    s.CompleteLoadAvailability(load.value, outcome);
  }
}

/**
 * The agenda screen's view model (`AgendaViewModel`): the saved input (start date,
 * end date and search text), setters that leave it alone when nothing changes, the
 * event query it drives, and the content observer it registers at most once.
 *
 * Saving a new input notifies the event list, which reloads; the model counts those
 * reloads. The event provider is a function from (start day, end day, query) to events.
 */
module AgendaViewModel {
  import opened Wrappers
  import EM = EventManager
  import Gregorian

  /** `AgendaInputModel`. */
  datatype AgendaInputModel = AgendaInputModel(startDate: EM.DateTime, endDate: EM.DateTime, query: string)

  /** `setStartDate` on a saved input: the same input when the instant is the same, else the new start. */
  function WithStartDate(m: AgendaInputModel, date: EM.DateTime): AgendaInputModel {
    if m.startDate.millis == date.millis then m else AgendaInputModel(date, m.endDate, m.query)
  }

  /** `setEndDate` on a saved input. */
  function WithEndDate(m: AgendaInputModel, date: EM.DateTime): AgendaInputModel {
    if m.endDate.millis == date.millis then m else AgendaInputModel(m.startDate, date, m.query)
  }

  /** `setQuery` on a saved input. */
  function WithQuery(m: AgendaInputModel, query: string): AgendaInputModel {
    if m.query == query then m else AgendaInputModel(m.startDate, m.endDate, query)
  }

  /** A saved input whose start and end instants and query are the given ones. */
  predicate SameInput(m: Option<AgendaInputModel>, startDate: EM.DateTime, endDate: EM.DateTime, query: string) {
    m.Some? && m.value.startDate.millis == startDate.millis && m.value.endDate.millis == endDate.millis
    && m.value.query == query
  }

  /** `setInputData`: keep the saved input when start, end and query all match it, else save the new one. */
  function WithInputData(m: Option<AgendaInputModel>, startDate: EM.DateTime, endDate: EM.DateTime, query: string): AgendaInputModel {
    if SameInput(m, startDate, endDate, query) then m.value else AgendaInputModel(startDate, endDate, query)
  }

  /**
   * Each setter lands on the requested value, touches only its own field (up to a
   * date with the same instant), and setting the same value again changes nothing.
   */
  lemma SettersMeaning(m: AgendaInputModel, date: EM.DateTime, query: string)
    ensures WithStartDate(m, date).startDate.millis == date.millis
      && WithStartDate(m, date).endDate == m.endDate && WithStartDate(m, date).query == m.query
    ensures WithEndDate(m, date).endDate.millis == date.millis
      && WithEndDate(m, date).startDate == m.startDate && WithEndDate(m, date).query == m.query
    ensures WithQuery(m, query).query == query
      && WithQuery(m, query).startDate == m.startDate && WithQuery(m, query).endDate == m.endDate
    ensures WithStartDate(WithStartDate(m, date), date) == WithStartDate(m, date)
    ensures WithEndDate(WithEndDate(m, date), date) == WithEndDate(m, date)
    ensures WithQuery(WithQuery(m, query), query) == WithQuery(m, query)
  {
  }

  /** `setInputData` saves the requested instants and query, and repeating it changes nothing. */
  lemma InputDataMeaning(m: Option<AgendaInputModel>, startDate: EM.DateTime, endDate: EM.DateTime, query: string)
    ensures var r := WithInputData(m, startDate, endDate, query);
      r.startDate.millis == startDate.millis && r.endDate.millis == endDate.millis && r.query == query
      && WithInputData(Some(r), startDate, endDate, query) == r
  {
  }

  /** `Time.getJulianDay` of a date. */
  function JulianDay(d: EM.OneDate): int {
    Gregorian.DayNumber(d.year, d.month, d.day)
  }

  class AgendaViewModel {
    var inputData: Option<AgendaInputModel>
    var loads: nat
    var observerRegistered: bool
    var observerRegistrations: nat

    /** The content observer is registered once at most, and it is there exactly when it was registered. */
    predicate Valid()
      reads this
    {
      observerRegistrations <= 1 && (observerRegistered <==> observerRegistrations == 1)
    }

    /** The view model starts from the input saved with its state, if any, and no observer. */
    constructor(saved: Option<AgendaInputModel>)
      ensures Valid() && inputData == saved && loads == 0 && !observerRegistered
    {
      inputData := saved;
      loads := 0;
      observerRegistered := false;
      observerRegistrations := 0;
    }

    /** `handle.set`: save the input; the event list observes it and reloads. */
    method Save(m: AgendaInputModel)
      modifies this`inputData, this`loads
      ensures inputData == Some(m) && loads == old(loads) + 1
    {
      inputData := Some(m);
      loads := loads + 1;
    }

    /**
     * `setStartDate`: fails (`!!` on a null input) when nothing is saved yet; a date with
     * the saved instant is ignored; otherwise only the start date is replaced and the
     * events reload.
     */
    method SetStartDate(date: EM.DateTime) returns (failed: bool)
      modifies this`inputData, this`loads
      ensures failed <==> old(inputData).None?
      ensures failed ==> inputData == old(inputData) && loads == old(loads)
      ensures !failed ==> inputData == Some(WithStartDate(old(inputData).value, date))
      ensures !failed ==> loads == old(loads) + (if old(inputData).value.startDate.millis == date.millis then 0 else 1)
    {
      var simpleModel := inputData;
      if simpleModel.Some? {
        if simpleModel.value.startDate.millis == date.millis {
          return false;
        }
      }
      if simpleModel.None? {
        return true;
      }
      Save(AgendaInputModel(date, simpleModel.value.endDate, simpleModel.value.query));
      return false;
    }

    /** `setEndDate`: as `setStartDate`, for the end date. */
    method SetEndDate(date: EM.DateTime) returns (failed: bool)
      modifies this`inputData, this`loads
      ensures failed <==> old(inputData).None?
      ensures failed ==> inputData == old(inputData) && loads == old(loads)
      ensures !failed ==> inputData == Some(WithEndDate(old(inputData).value, date))
      ensures !failed ==> loads == old(loads) + (if old(inputData).value.endDate.millis == date.millis then 0 else 1)
    {
      var simpleModel := inputData;
      if simpleModel.Some? {
        if simpleModel.value.endDate.millis == date.millis {
          return false;
        }
      }
      if simpleModel.None? {
        return true;
      }
      Save(AgendaInputModel(simpleModel.value.startDate, date, simpleModel.value.query));
      return false;
    }

    /** `setInputData`: works without a saved input; ignored when all three values match the saved ones. */
    method SetInputData(startDate: EM.DateTime, endDate: EM.DateTime, query: string)
      modifies this`inputData, this`loads
      ensures inputData == Some(WithInputData(old(inputData), startDate, endDate, query))
      ensures loads == old(loads) + (if SameInput(old(inputData), startDate, endDate, query) then 0 else 1)
    {
      var simpleModel := inputData;
      if simpleModel.Some? {
        if simpleModel.value.startDate.millis == startDate.millis && simpleModel.value.endDate.millis == endDate.millis
          && simpleModel.value.query == query
        {
          return;
        }
      }
      Save(AgendaInputModel(startDate, endDate, query));
    }

    /** `setQuery`: fails when nothing is saved yet; an equal query is ignored; otherwise only the query is replaced. */
    method SetQuery(query: string) returns (failed: bool)
      modifies this`inputData, this`loads
      ensures failed <==> old(inputData).None?
      ensures failed ==> inputData == old(inputData) && loads == old(loads)
      ensures !failed ==> inputData == Some(WithQuery(old(inputData).value, query))
      ensures !failed ==> loads == old(loads) + (if old(inputData).value.query == query then 0 else 1)
    {
      var simpleModel := inputData;
      if simpleModel.None? {
        return true;
      }
      if query == simpleModel.value.query {
        return false;
      }
      Save(AgendaInputModel(simpleModel.value.startDate, simpleModel.value.endDate, query));
      return false;
    }

    /** `queryEvents`: no saved input gives no events; otherwise ask for the saved range and text. */
    method QueryEvents(provider: (int, int, string) -> seq<EM.OneEvent>) returns (events: seq<EM.OneEvent>)
      ensures inputData.None? ==> events == []
      ensures inputData.Some? ==>
        events == provider(JulianDay(inputData.value.startDate.date), JulianDay(inputData.value.endDate.date), inputData.value.query)
    {
      events := [];
      var simpleModel := inputData;
      if simpleModel.None? {
        return;
      }
      var startDay := JulianDay(simpleModel.value.startDate.date);
      var endDay := JulianDay(simpleModel.value.endDate.date);
      events := provider(startDay, endDay, simpleModel.value.query);
    }

    /** `loadEvents`: query the events, then register the content observer unless it is already there. */
    method LoadEvents(provider: (int, int, string) -> seq<EM.OneEvent>) returns (events: seq<EM.OneEvent>)
      requires Valid()
      modifies this`observerRegistered, this`observerRegistrations
      ensures Valid() && observerRegistered && observerRegistrations == 1
      ensures inputData.None? ==> events == []
      ensures inputData.Some? ==>
        events == provider(JulianDay(inputData.value.startDate.date), JulianDay(inputData.value.endDate.date), inputData.value.query)
    {
      events := QueryEvents(provider);
      if !observerRegistered {
        observerRegistered := true;
        observerRegistrations := observerRegistrations + 1;
      }
    }
  }
}

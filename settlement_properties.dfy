/** Properties of SettlementService that relate consecutive calls. */
module SettlementProperties {
  import opened Wrappers
  import opened Calendar
  import opened SettlementRules
  import opened Settlements

  /** Once complete succeeded for a user and month, complete for the same
      user and any date of that month fails, whatever the amounts. */
  method CompleteTwiceFails(service: SettlementService, first: SettlementRequest, second: SettlementRequest)
    returns (r1: Result<Settlement, SettlementError>, r2: Result<Settlement, SettlementError>)
    requires service.Valid()
    requires second.userId == first.userId
    requires second.date.year == first.date.year && second.date.month == first.date.month
    modifies service
    ensures service.Valid()
    ensures r1.Success? ==> r2 == Failure(SettlementAlreadyCompleted)
  {
    r1 := service.Complete(first);
    AdjustDateSameMonth(first.date, second.date);
    if r1.Success? {
      assert service.records[r1.value.id] == r1.value;
    }
    r2 := service.Complete(second);
  }

  /** reportBug right after a successful reportBug on the same id fails. */
  method ReportBugTwiceFails(service: SettlementService, id: nat)
    returns (r1: Result<Settlement, SettlementError>, r2: Result<Settlement, SettlementError>)
    requires service.Valid()
    modifies service
    ensures service.Valid()
    ensures r1.Success? ==> r2 == Failure(BugAlreadyReported)
    ensures id in old(service.records) && !old(service.records[id].bugReported) ==> r1.Success?
  {
    r1 := service.ReportBug(id);
    r2 := service.ReportBug(id);
  }

  /** Starting from an empty repository with user 1: a settlement for
      15 March 2024 is stored under 1 March 2024 with final profit
      1000 * 0.5 + 50 - 20 = 530 and no bug reported; completing again with
      another day of March fails; an update for May, with no settlement yet,
      fails as incomplete. */
  method MarchSettlementScenario()
    returns (first: Result<Settlement, SettlementError>,
             second: Result<Settlement, SettlementError>,
             may: Result<Settlement, SettlementError>)
    ensures first.Success?
    ensures first.value.monthAndYear == CalendarDate(2024, 3, 1)
    ensures first.value.finalProfit == 530.0 && !first.value.bugReported
    ensures second == Failure(SettlementAlreadyCompleted)
    ensures may == Failure(SettlementIncomplete)
  {
    var service := new SettlementService({1});
    var request := SettlementRequest(1, CalendarDate(2024, 3, 15), Some(1000.0), 0.5, Some(50.0), 20.0);
    first := service.Complete(request);
    assert service.records[first.value.id] == first.value;
    second := service.Complete(request.(date := CalendarDate(2024, 3, 28), netProfit := Some(1.0)));
    var mayRequest := request.(date := CalendarDate(2024, 5, 10));
    assert forall k :: k in service.records ==> service.records[k].monthAndYear.month == 3;
    may := service.Update(mayRequest);
  }
}

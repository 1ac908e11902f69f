/** SettlementService: the orchestration over the settlement repository.
    The repository is the map `records` from id to settlement, with the
    identifier generator `nextId`; the user repository is represented by
    the set of user ids that resolve. */
module Settlements {
  import opened Wrappers
  import opened Calendar
  import opened SettlementRules

  class SettlementService {
    var records: map<nat, Settlement>
    var nextId: nat
    const users: set<nat>

    ghost predicate Valid()
      reads this
    {
      IsConsistentStore(records, nextId)
    }

    constructor (users: set<nat>)
      ensures Valid()
      ensures this.users == users && records == map[] && nextId == 1
    {
      this.users := users;
      records := map[];
      nextId := 1;
    }

    /** getInfo: the settlement of this user for the month of date. */
    method GetInfo(userId: nat, date: Date) returns (r: Result<Settlement, SettlementError>)
      requires Valid()
      ensures userId !in users ==> r == Failure(UserNotFound(userId))
      ensures userId in users && !HasSettlement(records, userId, AdjustDate(date)) ==>
                r == Failure(SettlementIncomplete)
      ensures r.Success? <==> userId in users && HasSettlement(records, userId, AdjustDate(date))
      ensures r.Success? ==>
                r.value.id in records && records[r.value.id] == r.value
                && r.value.userId == userId && r.value.monthAndYear == AdjustDate(date)
    {
      if userId !in users {
        return Failure(UserNotFound(userId));
      }
      var adjustedDate := AdjustDate(date);
      FindByUserIdAndDateComplete(records, nextId, userId, adjustedDate);
      var found := FindByUserIdAndDate(records, userId, adjustedDate, nextId);
      if found.None? {
        return Failure(SettlementIncomplete);
      }
      r := Success(records[found.value]);
    }

    /** reportBug: flips the bug flag of settlement id from false to true. */
    method ReportBug(id: nat) returns (r: Result<Settlement, SettlementError>)
      requires Valid()
      modifies this
      ensures Valid() && nextId == old(nextId)
      ensures id !in old(records) ==> r == Failure(SettlementNotFound(id))
      ensures id in old(records) && old(records)[id].bugReported ==> r == Failure(BugAlreadyReported)
      ensures r.Failure? ==> records == old(records)
      ensures r.Success? <==> id in old(records) && !old(records)[id].bugReported
      ensures r.Success? ==>
                r.value == old(records)[id].(bugReported := true)
                && records == old(records)[id := r.value]
    {
      if id !in records {
        return Failure(SettlementNotFound(id));
      }
      var settlement := records[id];
      if settlement.bugReported {
        return Failure(BugAlreadyReported);
      }
      settlement := settlement.(bugReported := true);
      records := records[id := settlement];
      r := Success(settlement);
    }

    /** isBugReported: the stored flag of settlement id. */
    method IsBugReported(id: nat) returns (r: Result<bool, SettlementError>)
      ensures id !in records ==> r == Failure(SettlementNotFound(id))
      ensures id in records ==> r == Success(records[id].bugReported)
    {
      if id !in records {
        return Failure(SettlementNotFound(id));
      }
      r := Success(records[id].bugReported);
    }

    /** complete: creates the settlement of a user for a month, once. */
    method Complete(req: SettlementRequest) returns (r: Result<Settlement, SettlementError>)
      requires Valid()
      modifies this
      ensures Valid()
      ensures req.userId !in users ==> r == Failure(UserNotFound(req.userId))
      ensures req.userId in users && HasSettlement(old(records), req.userId, AdjustDate(req.date)) ==>
                r == Failure(SettlementAlreadyCompleted)
      ensures req.userId in users && !HasSettlement(old(records), req.userId, AdjustDate(req.date))
              && CheckSettlementData(req).Fail? ==>
                r == Failure(CheckSettlementData(req).error)
      ensures r.Failure? ==> records == old(records) && nextId == old(nextId)
      ensures r.Success? <==>
                req.userId in users && !HasSettlement(old(records), req.userId, AdjustDate(req.date))
                && CheckSettlementData(req) == Pass
      ensures r.Success? ==>
                && r.value.id == old(nextId) && r.value.id !in old(records)
                && r.value.userId == req.userId
                && r.value.monthAndYear == AdjustDate(req.date)
                && r.value.netProfit == req.netProfit.value && r.value.factor == req.factor
                && r.value.tips == req.tips.value && r.value.penalties == req.penalties
                && r.value.finalProfit == req.netProfit.value * req.factor + req.tips.value - req.penalties
                && !r.value.bugReported
                && records == old(records)[r.value.id := r.value]
                && nextId == old(nextId) + 1
    {
      var userId := req.userId;
      if userId !in users {
        return Failure(UserNotFound(userId));
      }
      var adjustedDate := AdjustDate(req.date);
      FindByUserIdAndDateComplete(records, nextId, userId, adjustedDate);
      var existing := FindByUserIdAndDate(records, userId, adjustedDate, nextId);
      if existing.Some? {
        return Failure(SettlementAlreadyCompleted);
      }
      var check := CheckSettlementData(req);
      if check.Fail? {
        return Failure(check.error);
      }
      var finalProfit := FinalProfit(req.netProfit.value, req.factor, req.tips.value, req.penalties);
      var settlement := Settlement(nextId, userId, adjustedDate, req.netProfit.value, req.factor,
                                   req.tips.value, req.penalties, finalProfit, false);
      AddRecordKeepsConsistent(records, nextId, settlement);
      records := records[nextId := settlement];
      nextId := nextId + 1;
      r := Success(settlement);
    }

    /** update: overwrites the amounts of an existing settlement and clears its bug flag. */
    method Update(req: SettlementRequest) returns (r: Result<Settlement, SettlementError>)
      requires Valid()
      modifies this
      ensures Valid() && nextId == old(nextId)
      ensures records.Keys == old(records).Keys
      ensures req.userId !in users ==> r == Failure(UserNotFound(req.userId))
      ensures req.userId in users && !HasSettlement(old(records), req.userId, AdjustDate(req.date)) ==>
                r == Failure(SettlementIncomplete)
      ensures req.userId in users && HasSettlement(old(records), req.userId, AdjustDate(req.date))
              && CheckSettlementData(req).Fail? ==>
                r == Failure(CheckSettlementData(req).error)
      ensures r.Failure? ==> records == old(records)
      ensures r.Success? <==>
                req.userId in users && HasSettlement(old(records), req.userId, AdjustDate(req.date))
                && CheckSettlementData(req) == Pass
      ensures r.Success? ==>
                && r.value.id in old(records)
                && old(records)[r.value.id].userId == req.userId
                && old(records)[r.value.id].monthAndYear == AdjustDate(req.date)
                && r.value == old(records)[r.value.id].(
                     netProfit := req.netProfit.value, factor := req.factor,
                     tips := req.tips.value, penalties := req.penalties,
                     finalProfit := req.netProfit.value * req.factor + req.tips.value - req.penalties,
                     bugReported := false)
                && records == old(records)[r.value.id := r.value]
    {
      var userId := req.userId;
      if userId !in users {
        return Failure(UserNotFound(userId));
      }
      var adjustedDate := AdjustDate(req.date);
      FindByUserIdAndDateComplete(records, nextId, userId, adjustedDate);
      var found := FindByUserIdAndDate(records, userId, adjustedDate, nextId);
      if found.None? {
        return Failure(SettlementIncomplete);
      }
      var check := CheckSettlementData(req);
      if check.Fail? {
        return Failure(check.error);
      }
      var settlement := UpdateSettlementFields(records[found.value], req);
      ReplaceRecordKeepsConsistent(records, nextId, found.value, settlement);
      records := records[found.value := settlement];
      r := Success(settlement);
    }

    /** findAllWithReportedBug: every flagged record, in id order. */
    method FindAllWithReportedBug() returns (r: seq<Settlement>)
      requires Valid()
      ensures forall s :: s in r <==> s in records.Values && s.bugReported
      ensures forall i, j :: 0 <= i < j < |r| ==> r[i].id < r[j].id
    {
      r := WithReportedBug(records, nextId);
      forall s | s in records.Values && s.bugReported
        ensures s in r
      {
        var k :| k in records && records[k] == s;
        assert records[s.id] == s;
      }
    }
  }

  /** updateSettlementFields: the setters on the stored entity, as one record update. */
  function UpdateSettlementFields(settlement: Settlement, req: SettlementRequest): (r: Settlement)
    requires req.netProfit.Some? && req.tips.Some?
    ensures r.id == settlement.id && r.userId == settlement.userId
    ensures r.monthAndYear == settlement.monthAndYear
    ensures r.netProfit == req.netProfit.value && r.factor == req.factor
    ensures r.tips == req.tips.value && r.penalties == req.penalties
    ensures r.finalProfit == FinalProfit(r.netProfit, r.factor, r.tips, r.penalties)
    ensures !r.bugReported
  {
    var netProfit := req.netProfit.value;
    var finalProfit := FinalProfit(netProfit, req.factor, req.tips.value, req.penalties);
    settlement.(netProfit := netProfit, factor := req.factor, tips := req.tips.value,
                penalties := req.penalties, finalProfit := finalProfit, bugReported := false)
  }
}

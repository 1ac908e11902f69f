/** The pure part of SettlementService: month normalisation, the ordered
    validation of the four amounts, the derived final profit, and the two
    repository queries the service relies on. SettlementService.java keeps
    amounts as BigDecimal, whose multiply, add, subtract and compare-with-zero
    are exact, so they are Dafny reals here. */
module SettlementRules {
  import opened Wrappers
  import opened Calendar

  /** Every failure the settlement service can raise, as one closed type. */
  datatype SettlementError =
    | UserNotFound(userId: nat)
    | SettlementNotFound(id: nat)
    | SettlementIncomplete
    | SettlementAlreadyCompleted
    | BugAlreadyReported
    | EmptyNetAmount
    | IncorrectNetAmount
    | EmptyTipAmount
    | IncorrectTipAmount
    | IncorrectOptionalFactor
    | IncorrectOptionalPenaltyAmount
    | IncorrectDate          // declared by the exception supplier, raised by no modelled operation
    | IncorrectOptionalDate  // likewise

  /** The request a caller sends to complete or update. Net profit and tips
      may be absent (null); factor and penalties are always present. */
  datatype SettlementRequest = SettlementRequest(
    userId: nat,
    date: Date,
    netProfit: Option<real>,
    factor: real,
    tips: Option<real>,
    penalties: real)

  /** One stored settlement: one user's outcome for one month. */
  datatype Settlement = Settlement(
    id: nat,
    userId: nat,
    monthAndYear: Date,
    netProfit: real,
    factor: real,
    tips: real,
    penalties: real,
    finalProfit: real,
    bugReported: bool)

  /** LocalDate.withDayOfMonth(1): the first day of the same month. */
  function AdjustDate(date: Date): (r: Date)
    ensures r.day == 1 && r.year == date.year && r.month == date.month
  {
    date.(day := 1)
  }

  lemma AdjustDateIdempotent(date: Date)
    ensures AdjustDate(AdjustDate(date)) == AdjustDate(date)
  {
  }

  /** Two dates normalise to the same month exactly when they share year and month. */
  lemma AdjustDateSameMonth(a: Date, b: Date)
    ensures AdjustDate(a) == AdjustDate(b) <==> a.year == b.year && a.month == b.month
  {
  }

  /** A normalised date is a fixed point, and every fixed point is a first of month. */
  lemma AdjustDateFixedPoints(date: Date)
    ensures AdjustDate(date) == date <==> date.day == 1
  {
  }

  /** calculateFinalProfit: net profit scaled by the factor, plus tips, minus penalties. */
  function FinalProfit(netProfit: real, factor: real, tips: real, penalties: real): real {
    netProfit * factor + tips - penalties
  }

  /** What the final profit of validated amounts satisfies: never below minus
      the penalties, tips minus penalties when the factor is zero, and
      non-negative when the tips cover the penalties. */
  lemma FinalProfitBounds(netProfit: real, factor: real, tips: real, penalties: real)
    requires netProfit >= 0.0 && factor >= 0.0 && tips >= 0.0
    ensures FinalProfit(netProfit, factor, tips, penalties) >= -penalties
    ensures factor == 0.0 ==> FinalProfit(netProfit, factor, tips, penalties) == tips - penalties
    ensures penalties <= tips ==> FinalProfit(netProfit, factor, tips, penalties) >= 0.0
  {
    assert netProfit * factor >= 0.0;
  }

  /** checkIfNetProfitIsCorrect: absent fails "empty", negative fails "incorrect". */
  function CheckNetProfit(netProfit: Option<real>): (r: Outcome<SettlementError>)
    ensures r == Pass <==> netProfit.Some? && netProfit.value >= 0.0
    ensures r == Fail(EmptyNetAmount) <==> netProfit.None?
    ensures r.Fail? ==> r.error == EmptyNetAmount || r.error == IncorrectNetAmount
  {
    if netProfit.None? then Fail(EmptyNetAmount)
    else if netProfit.value < 0.0 then Fail(IncorrectNetAmount)
    else Pass
  }

  /** checkIfFactorIsCorrect: only a negative factor fails. */
  function CheckFactor(factor: real): (r: Outcome<SettlementError>)
    ensures r == Pass <==> factor >= 0.0
    ensures r.Fail? ==> r.error == IncorrectOptionalFactor
  {
    if factor < 0.0 then Fail(IncorrectOptionalFactor) else Pass
  }

  /** checkIfTipsAreCorrect: absent fails "empty", negative fails "incorrect". */
  function CheckTips(tips: Option<real>): (r: Outcome<SettlementError>)
    ensures r == Pass <==> tips.Some? && tips.value >= 0.0
    ensures r == Fail(EmptyTipAmount) <==> tips.None?
    ensures r.Fail? ==> r.error == EmptyTipAmount || r.error == IncorrectTipAmount
  {
    if tips.None? then Fail(EmptyTipAmount)
    else if tips.value < 0.0 then Fail(IncorrectTipAmount)
    else Pass
  }

  /** checkIfPenaltiesAreCorrect: only negative penalties fail. */
  function CheckPenalties(penalties: real): (r: Outcome<SettlementError>)
    ensures r == Pass <==> penalties >= 0.0
    ensures r.Fail? ==> r.error == IncorrectOptionalPenaltyAmount
  {
    if penalties < 0.0 then Fail(IncorrectOptionalPenaltyAmount) else Pass
  }

  /** True when the net profit passes its check (present and not negative). */
  predicate NetProfitOk(req: SettlementRequest) {
    req.netProfit.Some? && req.netProfit.value >= 0.0
  }

  predicate TipsOk(req: SettlementRequest) {
    req.tips.Some? && req.tips.value >= 0.0
  }

  /** The checks run net profit, factor, tips, penalties, and the first one
      that fails is the error raised. Zero passes every check. */
  function CheckSettlementData(req: SettlementRequest): (r: Outcome<SettlementError>)
    ensures r == Fail(EmptyNetAmount) <==> req.netProfit.None?
    ensures r == Fail(IncorrectNetAmount) <==> req.netProfit.Some? && req.netProfit.value < 0.0
    ensures r == Fail(IncorrectOptionalFactor) <==> NetProfitOk(req) && req.factor < 0.0
    ensures r == Fail(EmptyTipAmount) <==> NetProfitOk(req) && req.factor >= 0.0 && req.tips.None?
    ensures r == Fail(IncorrectTipAmount) <==>
              NetProfitOk(req) && req.factor >= 0.0 && req.tips.Some? && req.tips.value < 0.0
    ensures r == Fail(IncorrectOptionalPenaltyAmount) <==>
              NetProfitOk(req) && req.factor >= 0.0 && TipsOk(req) && req.penalties < 0.0
    ensures r == Pass <==>
              NetProfitOk(req) && req.factor >= 0.0 && TipsOk(req) && req.penalties >= 0.0
  {
    var net := CheckNetProfit(req.netProfit);
    if net.Fail? then net else
    var factor := CheckFactor(req.factor);
    if factor.Fail? then factor else
    var tips := CheckTips(req.tips);
    if tips.Fail? then tips else
    CheckPenalties(req.penalties)
  }

  /** What a successfully validated settlement always satisfies: a
      first-of-month key, non-negative amounts and a consistent final profit. */
  predicate IsWellFormed(s: Settlement) {
    && s.monthAndYear.day == 1
    && s.netProfit >= 0.0 && s.factor >= 0.0 && s.tips >= 0.0 && s.penalties >= 0.0
    && s.finalProfit == FinalProfit(s.netProfit, s.factor, s.tips, s.penalties)
  }

  /** The repository's state: every record is stored under its own id, below
      the next id to assign, well formed, and no two records share a
      (user, month) pair. */
  ghost predicate IsConsistentStore(records: map<nat, Settlement>, nextId: nat) {
    && (forall k :: k in records ==> k < nextId && records[k].id == k && IsWellFormed(records[k]))
    && (forall i, j ::
          (i in records && j in records && records[i].userId == records[j].userId
           && records[i].monthAndYear == records[j].monthAndYear) ==> i == j)
  }

  /** Adding a well-formed record under the next id, for a (user, month)
      pair not yet stored, keeps the store consistent. */
  lemma AddRecordKeepsConsistent(records: map<nat, Settlement>, nextId: nat, s: Settlement)
    requires IsConsistentStore(records, nextId)
    requires s.id == nextId && IsWellFormed(s)
    requires !HasSettlement(records, s.userId, s.monthAndYear)
    ensures IsConsistentStore(records[nextId := s], nextId + 1)
  {
  }

  /** Overwriting a record with a well-formed one of the same id, user and
      month keeps the store consistent. */
  lemma ReplaceRecordKeepsConsistent(records: map<nat, Settlement>, nextId: nat, k: nat, s: Settlement)
    requires IsConsistentStore(records, nextId)
    requires k in records && IsWellFormed(s)
    requires s.id == k && s.userId == records[k].userId && s.monthAndYear == records[k].monthAndYear
    ensures IsConsistentStore(records[k := s], nextId)
  {
  }

  ghost predicate HasSettlement(records: map<nat, Settlement>, userId: nat, month: Date) {
    exists k :: k in records && records[k].userId == userId && records[k].monthAndYear == month
  }

  /** findByUserIdAndDate: the id of a record of this user for this month,
      searching the ids below bound. */
  function FindByUserIdAndDate(records: map<nat, Settlement>, userId: nat, month: Date, bound: nat): (r: Option<nat>)
    ensures r.Some? ==>
              r.value < bound && r.value in records
              && records[r.value].userId == userId && records[r.value].monthAndYear == month
    ensures r.None? ==>
              forall k :: k in records && k < bound ==>
                !(records[k].userId == userId && records[k].monthAndYear == month)
    decreases bound
  {
    if bound == 0 then None
    else if bound - 1 in records && records[bound - 1].userId == userId
            && records[bound - 1].monthAndYear == month then Some(bound - 1)
    else FindByUserIdAndDate(records, userId, month, bound - 1)
  }

  /** On a consistent store the search finds a record exactly when one exists. */
  lemma FindByUserIdAndDateComplete(records: map<nat, Settlement>, nextId: nat, userId: nat, month: Date)
    requires IsConsistentStore(records, nextId)
    ensures FindByUserIdAndDate(records, userId, month, nextId).Some? <==> HasSettlement(records, userId, month)
  {
  }

  /** findAllWithBugReportedTrue: the records below bound whose flag is set, in id order. */
  function WithReportedBug(records: map<nat, Settlement>, bound: nat): (r: seq<Settlement>)
    requires forall k :: k in records ==> records[k].id == k
    ensures forall s :: s in r <==> s.id < bound && s.id in records && records[s.id] == s && s.bugReported
    ensures forall i, j :: 0 <= i < j < |r| ==> r[i].id < r[j].id
    ensures forall i :: 0 <= i < |r| ==> r[i].id < bound
    decreases bound
  {
    if bound == 0 then []
    else
      var earlier := WithReportedBug(records, bound - 1);
      if bound - 1 in records && records[bound - 1].bugReported then earlier + [records[bound - 1]]
      else earlier
  }
}

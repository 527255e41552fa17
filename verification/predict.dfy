/**
 * The `predictRank` request: find the exam slot, take the scraped responses,
 * score them against the slot's answer key, store the total, normalize it,
 * compute the GATE score, look the raw total up in the rank table and
 * renumber the resulting bucket. The scraper, the database and the rank
 * table are parameters: the scrape's outcome, the slots with their answer
 * sheets, the aggregates the normalization reads, and the stored scores.
 */
module Predict {
  import opened Base
  import opened Scoring
  import opened Normalization
  import opened Ranking
  import PyText

  /** A `Slots` row with the `AnswerSheet` rows that belong to it. */
  datatype Slot = Slot(department: string, shift: Option<string>, passing: Option<real>, sheets: seq<KeyEntry>)

  /** The request's `url`, `department` and `shift`, each absent if not sent. */
  datatype Request = Request(url: Option<string>, department: Option<string>, shift: Option<string>)

  /** What `get_candidate_response(url)` gave: the scraped responses, or the exception it raised. */
  datatype Scrape = Fetched(items: seq<Item>) | FetchFailed

  /**
   * The database as `predictRank` sees it. `session` and `dept` are the
   * aggregates of `marks_obtained` over the slot and the department,
   * `deptDesc` the department's normalized marks in the database's
   * descending order and `deptCount` its number of scores, all read after
   * the candidate's score is stored. `scores` is the `CandidateScore` table
   * before the request and `mine` the position of this user's row, if any.
   */
  datatype Env = Env(
    slots: seq<Slot>,
    session: Stats,
    dept: Stats,
    deptDesc: seq<Option<real>>,
    deptCount: nat,
    mapping: map<string, string>,
    table: seq<TableRow>,
    scores: seq<ScoreRow>,
    mine: Option<nat>)

  /** The reported normalized rank: the renumbered value, or "unable to specify" when the renumbering raised. */
  datatype RankOutcome = Ranked(normalizedRank: Option<int>) | UnableToSpecify

  /** The replies of `predictRank`. */
  datatype Reply =
    | MissingFields
    | NoSlot
    | ScrapeFailed
    | InvalidFormat
    | NoAnswerSheet
    | ServerError
    | Scored(rank: Option<string>, marksObtained: real, normalizedMarks: real, gateScore: real,
             normalizedRank: RankOutcome, results: seq<Response>)

  /** Python truthiness of an optional text: present and non-empty. */
  predicate Truthy(s: Option<string>) {
    s.Some? && s.value != ""
  }

  /** Whether a slot passes the filters: the department, and the shift if one was sent. */
  predicate SlotMatches(s: Slot, department: string, shift: Option<string>) {
    s.department == department && (Truthy(shift) ==> s.shift == shift)
  }

  /** The slots passing the filters, in order. */
  function MatchingSlots(slots: seq<Slot>, department: string, shift: Option<string>): (ms: seq<Slot>)
    ensures forall s :: s in ms ==> s in slots && SlotMatches(s, department, shift)
    ensures forall s :: s in slots && SlotMatches(s, department, shift) ==> s in ms
    decreases |slots|
  {
    if |slots| == 0 then []
    else
      var prev := MatchingSlots(slots[..|slots| - 1], department, shift);
      var last := slots[|slots| - 1];
      assert slots == slots[..|slots| - 1] + [last];
      prev + (if SlotMatches(last, department, shift) then [last] else [])
  }

  /** The text stored as the candidate's `rank`: the bucket, or the message `get_candidate_rank` returned. */
  function RankText(l: RankLookup): (r: Option<string>)
    requires !l.BadRange? && !l.MissingColumn?
    ensures l.Bucket? ==> r == l.rank
    ensures !l.Bucket? ==> r.Some?
  {
    match l
    case BranchNotFound => Some("Branch not found")
    case Bucket(rank) => rank
    case LowMarks => Some("Can't predict rank with low marks")
    case OutOfRange => Some("Marks out of range")
  }

  /** `update_or_create` followed by the saves: the candidate's row with its new bucket and normalized mark. */
  function Upsert(scores: seq<ScoreRow>, mine: Option<nat>, rank: Option<string>, normalized: real): (r: (seq<ScoreRow>, nat))
    ensures |r.0| == |scores| || |r.0| == |scores| + 1
    ensures r.1 < |r.0| && r.0[r.1].rank == rank && r.0[r.1].normalizedMarks == normalized
    ensures forall i :: 0 <= i < |scores| && i != r.1 ==> r.0[i] == scores[i]
  {
    if mine.Some? && mine.value < |scores| then
      var old_ := scores[mine.value];
      (scores[mine.value := ScoreRow(rank, normalized, old_.normalizedRank)], mine.value)
    else
      (scores + [ScoreRow(rank, normalized, None)], |scores|)
  }

  /** The `try` around `calculate_normalized_rank`: the candidate's renumbered rank, or "unable to specify". */
  function RankAfterRenumbering(scores: seq<ScoreRow>, me: nat, rank: Option<string>): RankOutcome
    requires me < |scores|
  {
    match NormalizedRanks(scores, rank)
    case Failure(_) => UnableToSpecify
    case Success(u) => Ranked(u[me].normalizedRank)
  }

  /** Everything after the responses are scored: store, normalize, GATE score, rank lookup, renumbering. */
  function Finish(slot: Slot, department: string, env: Env, results: seq<Response>): Reply {
    var total := Total(results);
    var normalized := NormalizedMarks(slot.department, total, env.session, env.dept);
    var gate := GateScore(normalized, slot.passing, TopperMarks(env.deptDesc, env.deptCount));
    var lookup := CandidateRank(total, department, env.mapping, env.table);
    if lookup.BadRange? || lookup.MissingColumn? then ServerError
    else
      var rank := RankText(lookup);
      var (stored, me) := Upsert(env.scores, env.mine, rank, normalized);
      Scored(rank, total, normalized, gate, RankAfterRenumbering(stored, me, rank), results)
  }

  /** `predictRank`. */
  function PredictRank(req: Request, scrape: Scrape, env: Env): Reply {
    if !Truthy(req.department) || !Truthy(req.url) then MissingFields
    else
      var department := req.department.value;
      var ms := MatchingSlots(env.slots, department, req.shift);
      if |ms| == 0 then NoSlot
      else if |ms| > 1 then ServerError
      else WithSlot(ms[0], department, scrape, env)
  }

  /** The rest of `predictRank` once the slot is found: the scrape, the shape check, the answer key, the scoring loop. */
  function WithSlot(slot: Slot, department: string, scrape: Scrape, env: Env): Reply {
    match scrape
    case FetchFailed => ScrapeFailed
    case Fetched(items) =>
      if !WellShaped(items) then InvalidFormat
      else if |slot.sheets| == 0 then NoAnswerSheet
      else
        match ScoreItems(items, KeyMap(slot.sheets))
        case Failure(_) => ServerError
        case Success(results) => Finish(slot, department, env, results)
  }

  /* ---------------- what the request promises ---------------- */

  /** The slot a request that got past the slot lookup was scored against. */
  ghost predicate ScoredAgainst(req: Request, env: Env, slot: Slot) {
    Truthy(req.department) && Truthy(req.url) && MatchingSlots(env.slots, req.department.value, req.shift) == [slot]
  }

  /**
   * A request that reaches the end of `predictRank` without raising: the
   * fields are sent, one slot matches, the responses are well shaped, the
   * slot has an answer key, the scoring loop gives `results`, and the rank
   * table answers the raw total without raising.
   */
  ghost predicate ScoresCleanly(req: Request, items: seq<Item>, env: Env, results: seq<Response>) {
    && Truthy(req.department) && Truthy(req.url)
    && |MatchingSlots(env.slots, req.department.value, req.shift)| == 1
    && WellShaped(items)
    && var slot := MatchingSlots(env.slots, req.department.value, req.shift)[0];
    && |slot.sheets| > 0
    && ScoreItems(items, KeyMap(slot.sheets)) == Success(results)
    && var l := CandidateRank(Total(results), req.department.value, env.mapping, env.table);
    && !l.BadRange? && !l.MissingColumn?
  }

  /**
   * A request that scores cleanly gets a scored reply, whatever the
   * renumbering does: its results are the loop's, its marks their sum and
   * its rank the table's answer for that sum.
   */
  lemma ScoredWhenClean(req: Request, items: seq<Item>, env: Env, results: seq<Response>)
    requires ScoresCleanly(req, items, env, results)
    ensures var r := PredictRank(req, Fetched(items), env);
      && r.Scored? && r.results == results && r.marksObtained == Total(results)
      && r.rank == RankText(CandidateRank(Total(results), req.department.value, env.mapping, env.table))
  {
    var slot := MatchingSlots(env.slots, req.department.value, req.shift)[0];
    assert PredictRank(req, Fetched(items), env) == Finish(slot, req.department.value, env, results);
  }

  /** Conversely, every scored reply comes from a request that scored cleanly, with the reply's results. */
  lemma ScoredOnlyWhenClean(req: Request, items: seq<Item>, env: Env)
    requires PredictRank(req, Fetched(items), env).Scored?
    ensures ScoresCleanly(req, items, env, PredictRank(req, Fetched(items), env).results)
  {
    PredictScored(req, Fetched(items), env);
    PredictRankOnRawTotal(req, Fetched(items), env);
  }

  /**
   * A scored reply comes from well-shaped responses, a non-empty answer key
   * and a loop that raised nothing; its results are the loop's, its marks
   * their plain sum, and its normalized mark and GATE score are computed
   * from that sum.
   */
  lemma PredictScored(req: Request, scrape: Scrape, env: Env)
    requires PredictRank(req, scrape, env).Scored?
    ensures var r := PredictRank(req, scrape, env);
      && scrape.Fetched? && WellShaped(scrape.items)
      && exists slot :: (
        && ScoredAgainst(req, env, slot)
        && |slot.sheets| > 0
        && ScoreItems(scrape.items, KeyMap(slot.sheets)) == Success(r.results)
        && r.marksObtained == Total(r.results)
        && r.normalizedMarks == NormalizedMarks(slot.department, r.marksObtained, env.session, env.dept)
        && r.gateScore == GateScore(r.normalizedMarks, slot.passing, TopperMarks(env.deptDesc, env.deptCount)))
  {
    var slot, results := ScoredPath(req, scrape, env);
    FinishScored(slot, req.department.value, env, results);
  }

  /** The path a scored reply took: its slot, the loop's results, and the steps after scoring. */
  lemma ScoredPath(req: Request, scrape: Scrape, env: Env) returns (slot: Slot, results: seq<Response>)
    requires PredictRank(req, scrape, env).Scored?
    ensures ScoredAgainst(req, env, slot) && |slot.sheets| > 0
    ensures scrape.Fetched? && WellShaped(scrape.items)
    ensures ScoreItems(scrape.items, KeyMap(slot.sheets)) == Success(results)
    ensures PredictRank(req, scrape, env) == Finish(slot, req.department.value, env, results)
  {
    slot := SlotOf(req, scrape, env);
    results := ScoredSteps(slot, req.department.value, scrape, env);
  }

  /** A reply past the slot lookup names the one matching slot. */
  lemma SlotOf(req: Request, scrape: Scrape, env: Env) returns (slot: Slot)
    requires PredictRank(req, scrape, env).Scored?
    ensures ScoredAgainst(req, env, slot)
    ensures PredictRank(req, scrape, env) == WithSlot(slot, req.department.value, scrape, env)
  {
    var ms := MatchingSlots(env.slots, req.department.value, req.shift);
    assert ms == [ms[0]];
    slot := ms[0];
  }

  /** A scored reply from a known slot went through a well-shaped scrape and a loop that raised nothing. */
  lemma ScoredSteps(slot: Slot, department: string, scrape: Scrape, env: Env) returns (results: seq<Response>)
    requires WithSlot(slot, department, scrape, env).Scored?
    ensures scrape.Fetched? && WellShaped(scrape.items) && |slot.sheets| > 0
    ensures ScoreItems(scrape.items, KeyMap(slot.sheets)) == Success(results)
    ensures WithSlot(slot, department, scrape, env) == Finish(slot, department, env, results)
  {
    results := ScoreItems(scrape.items, KeyMap(slot.sheets)).value;
  }

  /** What a scored reply carries, stated on the steps after scoring. */
  lemma FinishScored(slot: Slot, department: string, env: Env, results: seq<Response>)
    requires Finish(slot, department, env, results).Scored?
    ensures var r := Finish(slot, department, env, results);
      && r.results == results
      && r.marksObtained == Total(results)
      && r.normalizedMarks == NormalizedMarks(slot.department, r.marksObtained, env.session, env.dept)
      && r.gateScore == GateScore(r.normalizedMarks, slot.passing, TopperMarks(env.deptDesc, env.deptCount))
  {
  }

  /**
   * The bucket is looked up on the raw total, not on the normalized mark:
   * a scored reply's rank is the table's answer for `marksObtained`.
   */
  lemma PredictRankOnRawTotal(req: Request, scrape: Scrape, env: Env)
    requires PredictRank(req, scrape, env).Scored?
    ensures var r := PredictRank(req, scrape, env);
      var l := CandidateRank(r.marksObtained, req.department.value, env.mapping, env.table);
      !l.BadRange? && !l.MissingColumn? && r.rank == RankText(l)
  {
  }

  /**
   * Changing the statistics the normalization and the GATE score read
   * changes neither whether the request is scored nor its marks, results
   * or rank bucket.
   */
  lemma RankIgnoresStatistics(req: Request, scrape: Scrape, env: Env, session: Stats, dept: Stats, deptDesc: seq<Option<real>>, deptCount: nat)
    requires PredictRank(req, scrape, env).Scored?
    ensures var r := PredictRank(req, scrape, env);
      var r2 := PredictRank(req, scrape, env.(session := session, dept := dept, deptDesc := deptDesc, deptCount := deptCount));
      && r2.Scored?
      && r2.rank == r.rank && r2.marksObtained == r.marksObtained && r2.results == r.results
  {
  }

  /**
   * The renumbering failing does not fail the request: a request that scored
   * cleanly gets a scored reply, and its normalized rank is "unable to
   * specify" exactly when the stored bucket is null or does not start with an
   * integer.
   */
  lemma RankFailureFallback(req: Request, items: seq<Item>, env: Env, results: seq<Response>)
    requires ScoresCleanly(req, items, env, results)
    ensures var r := PredictRank(req, Fetched(items), env);
      && r.Scored?
      && (r.normalizedRank.UnableToSpecify? <==> r.rank.None? || BucketLower(r.rank.value).None?)
  {
    ScoredWhenClean(req, items, env, results);
  }

  /**
   * When the bucket does start with an integer `lower`, the candidate's own
   * row is in it, so the reported normalized rank is a number from `lower`
   * up to `lower` plus the bucket's size, counting the candidate.
   */
  lemma RankedWithinBucket(req: Request, scrape: Scrape, env: Env)
    requires PredictRank(req, scrape, env).Scored?
    requires PredictRank(req, scrape, env).rank.Some?
    requires BucketLower(PredictRank(req, scrape, env).rank.value).Some?
    ensures var r := PredictRank(req, scrape, env);
      var lower := BucketLower(r.rank.value).value;
      && r.normalizedRank.Ranked? && r.normalizedRank.normalizedRank.Some?
      && lower <= r.normalizedRank.normalizedRank.value <= lower + |env.scores|
  {
    var slot := MatchingSlots(env.slots, req.department.value, req.shift)[0];
    var results := ScoreItems(scrape.items, KeyMap(slot.sheets)).value;
    assert PredictRank(req, scrape, env) == Finish(slot, req.department.value, env, results);
    FinishRanked(slot, req.department.value, env, results);
  }

  /** The bound of `RankedWithinBucket`, stated on the steps after scoring. */
  lemma FinishRanked(slot: Slot, department: string, env: Env, results: seq<Response>)
    requires Finish(slot, department, env, results).Scored?
    requires Finish(slot, department, env, results).rank.Some?
    requires BucketLower(Finish(slot, department, env, results).rank.value).Some?
    ensures var r := Finish(slot, department, env, results);
      var lower := BucketLower(r.rank.value).value;
      && r.normalizedRank.Ranked? && r.normalizedRank.normalizedRank.Some?
      && lower <= r.normalizedRank.normalizedRank.value <= lower + |env.scores|
  {
    var r := Finish(slot, department, env, results);
    var (stored, me) := Upsert(env.scores, env.mine, r.rank, r.normalizedMarks);
    RenumberedWithin(stored, me, r.rank.value);
  }

  /** The candidate's row is in its own bucket, so its renumbered rank lies within the bucket's range. */
  lemma RenumberedWithin(stored: seq<ScoreRow>, me: nat, b: string)
    requires me < |stored| && stored[me].rank == Some(b)
    requires BucketLower(b).Some?
    ensures var o := RankAfterRenumbering(stored, me, Some(b));
      && o.Ranked? && o.normalizedRank.Some?
      && BucketLower(b).value <= o.normalizedRank.value < BucketLower(b).value + |stored|
  {
    var u := NormalizedRanks(stored, Some(b)).value;
    assert RanksInRange(stored, b, BucketLower(b).value, |Members(stored, b, |stored|)|, u);
  }

  /** A response without one of the four keys rejects the whole batch before anything is scored. */
  lemma MalformedScrapeRejected(req: Request, items: seq<Item>, env: Env, k: nat)
    requires Truthy(req.department) && Truthy(req.url)
    requires |MatchingSlots(env.slots, req.department.value, req.shift)| == 1
    requires k < |items| && !HasResponseKeys(items[k])
    ensures PredictRank(req, Fetched(items), env) == InvalidFormat
  {
  }

  /** A question id `int` rejects ends the request with a server error, whatever else the request holds. */
  lemma BadIdIsServerError(req: Request, items: seq<Item>, env: Env)
    requires Truthy(req.department) && Truthy(req.url)
    requires |MatchingSlots(env.slots, req.department.value, req.shift)| == 1
    requires WellShaped(items)
    requires var slot := MatchingSlots(env.slots, req.department.value, req.shift)[0];
      |slot.sheets| > 0 && exists j :: 0 <= j < |items| && IdOf(items[j]).None?
    ensures PredictRank(req, Fetched(items), env) == ServerError
  {
    var slot := MatchingSlots(env.slots, req.department.value, req.shift)[0];
    ScoreItemsFails(items, KeyMap(slot.sheets));
  }

  /**
   * A rank table that raises on the way to the candidate's row (a `Marks`
   * cell `int` cannot read, or a matching row without the branch column)
   * ends a request that scored cleanly with a server error.
   */
  lemma TableErrorIsServerError(req: Request, items: seq<Item>, env: Env, results: seq<Response>)
    requires Truthy(req.department) && Truthy(req.url)
    requires |MatchingSlots(env.slots, req.department.value, req.shift)| == 1
    requires WellShaped(items)
    requires var slot := MatchingSlots(env.slots, req.department.value, req.shift)[0];
      |slot.sheets| > 0 && ScoreItems(items, KeyMap(slot.sheets)) == Success(results)
    requires var l := CandidateRank(Total(results), req.department.value, env.mapping, env.table);
      l.BadRange? || l.MissingColumn?
    ensures PredictRank(req, Fetched(items), env) == ServerError
  {
  }

  /** The messages `get_candidate_rank` returns all start with a letter. */
  lemma MessagesAreWords(l: RankLookup, m: string)
    requires l.BranchNotFound? || l.LowMarks? || l.OutOfRange?
    requires RankText(l) == Some(m)
    ensures |m| > 0 && PyText.IsAlpha(m[0])
  {
  }

  /**
   * A candidate whose branch is missing, whose marks are too low or out of
   * the table still gets a scored reply, but the message stored as the rank
   * is no bucket, so the normalized rank is "unable to specify".
   */
  lemma MessageIsUnranked(req: Request, items: seq<Item>, env: Env, results: seq<Response>)
    requires ScoresCleanly(req, items, env, results)
    requires !CandidateRank(Total(results), req.department.value, env.mapping, env.table).Bucket?
    ensures PredictRank(req, Fetched(items), env).Scored?
    ensures PredictRank(req, Fetched(items), env).normalizedRank == UnableToSpecify
  {
    RankFailureFallback(req, items, env, results);
    var r := PredictRank(req, Fetched(items), env);
    var l := CandidateRank(Total(results), req.department.value, env.mapping, env.table);
    MessagesAreWords(l, r.rank.value);
    BucketLowerOfWord(r.rank.value);
  }
}

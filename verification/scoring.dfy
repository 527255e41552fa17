/**
 * The per-question scoring loop of `predictRank`: the answer key indexed by
 * question id, the judgement of one scraped response against its key entry,
 * and the detailed results and total over all responses.
 */
module Scoring {
  import opened Base
  import opened PyText
  import opened PyNumber

  /* ---------------- the answer key ---------------- */

  /** A stored `AnswerSheet` record of the slot. */
  datatype KeyEntry = KeyEntry(questionId: nat, questionNo: Option<nat>, answer: string, qType: string, mark: real)

  /** What the key keeps per question id: the stripped answer, the mark, the type and the question number. */
  datatype KeyValue = KeyValue(answer: string, mark: real, qType: string, questionNo: Option<nat>)

  function ValueOf(e: KeyEntry): KeyValue {
    KeyValue(Strip(e.answer), e.mark, e.qType, e.questionNo)
  }

  /** The `answer_key` dictionary, built in record order, so a later record overwrites an earlier one with the same id. */
  function KeyMap(entries: seq<KeyEntry>): (m: map<int, KeyValue>)
    ensures forall id :: id in m <==> exists i :: 0 <= i < |entries| && entries[i].questionId == id
    decreases |entries|
  {
    if |entries| == 0 then map[]
    else
      var init := entries[..|entries| - 1];
      var last := entries[|entries| - 1];
      assert forall i :: 0 <= i < |init| ==> init[i] == entries[i];
      var m := KeyMap(init)[last.questionId := ValueOf(last)];
      KeyMapStep(entries, KeyMap(init), m);
      m
  }

  /** Adding the last record's id to the ids of the others gives the ids of all records. */
  lemma KeyMapStep(entries: seq<KeyEntry>, prev: map<int, KeyValue>, m: map<int, KeyValue>)
    requires |entries| > 0
    requires forall id :: id in prev <==> exists i :: 0 <= i < |entries| - 1 && entries[i].questionId == id
    requires forall id :: id in m <==> id in prev || id == entries[|entries| - 1].questionId
    ensures forall id :: id in m <==> exists i :: 0 <= i < |entries| && entries[i].questionId == id
  {
  }

  /** A question id maps to the value of the last record carrying it. */
  lemma {:induction false} KeyMapLastWins(entries: seq<KeyEntry>, i: nat)
    requires i < |entries|
    requires forall j :: i < j < |entries| ==> entries[j].questionId != entries[i].questionId
    ensures entries[i].questionId in KeyMap(entries)
    ensures KeyMap(entries)[entries[i].questionId] == ValueOf(entries[i])
    decreases |entries|
  {
    var init := entries[..|entries| - 1];
    if i < |entries| - 1 {
      assert init[i] == entries[i];
      KeyMapLastWins(init, i);
    }
  }

  /* ---------------- the scraped responses ---------------- */

  /** One scraped response: a dictionary of text fields. */
  type Item = map<string, string>

  /** A response carries the four keys `predictRank` reads. */
  predicate HasResponseKeys(item: Item) {
    "question_no" in item && "q_type" in item && "question_Id" in item && "candidate_answer" in item
  }

  /** The shape check of `predictRank`: every response carries the four keys. */
  predicate WellShaped(items: seq<Item>) {
    forall i :: 0 <= i < |items| ==> HasResponseKeys(items[i])
  }

  /** The candidate's answer as compared: stripped, then every space removed. */
  function Clean(answer: string): (r: string)
    ensures ' ' !in r
  {
    RemoveChar(Strip(answer), ' ')
  }

  /* ---------------- MSQ ---------------- */

  /** The options of an MSQ answer as compared: spaces removed, lower-cased, split on commas, as a set. */
  function OptionSet(s: string): set<string> {
    set o | o in Split(Lower(RemoveChar(s, ' ')), ",")
  }

  /** A character that lower-cases to a non-letter was that character already. */
  lemma LowerCharKeeps(c: char, d: char)
    requires !IsAlpha(d)
    ensures LowerChar(c) == d ==> c == d
  {
  }

  /** Lower-casing a text without spaces and commas leaves it without commas. */
  lemma LowerNoComma(p: string)
    requires ',' !in p
    ensures ',' !in Lower(p)
  {
    forall k | 0 <= k < |p| ensures Lower(p)[k] != ',' {
      LowerCharKeeps(p[k], ',');
    }
  }

  /** Removing spaces and lower-casing a comma-joined list of options without spaces is done option by option. */
  lemma CleanJoin(ps: seq<string>)
    requires forall k :: 0 <= k < |ps| ==> ' ' !in ps[k]
    ensures Lower(RemoveChar(Join(ps, ","), ' ')) == Join(seq(|ps|, i requires 0 <= i < |ps| => Lower(ps[i])), ",")
  {
    ReplaceJoin(ps, ",", ' ', "");
    var removed := seq(|ps|, i requires 0 <= i < |ps| => Replace(ps[i], ' ', ""));
    assert removed == ps;
    assert Replace(",", ' ', "") == ",";
    LowerJoin(ps, ",");
    assert Lower(",") == ",";
  }

  /**
   * The option set of a comma-joined list of options without spaces or
   * commas is the set of the lower-cased options: their order and their
   * repetitions do not matter.
   */
  lemma OptionSetOfJoin(ps: seq<string>)
    requires |ps| > 0
    requires forall k :: 0 <= k < |ps| ==> ' ' !in ps[k] && ',' !in ps[k]
    ensures OptionSet(Join(ps, ",")) == set p | p in ps :: Lower(p)
  {
    var lowered := seq(|ps|, i requires 0 <= i < |ps| => Lower(ps[i]));
    CleanJoin(ps);
    forall k | 0 <= k < |lowered| ensures ',' !in lowered[k] {
      LowerNoComma(ps[k]);
    }
    SplitJoin(lowered, ",");
    var a := OptionSet(Join(ps, ","));
    assert a == set o | o in lowered;
    var b := set p | p in ps :: Lower(p);
    forall o | o in a ensures o in b {
      var k :| 0 <= k < |lowered| && lowered[k] == o;
      assert ps[k] in ps;
    }
    forall o | o in b ensures o in a {
      var p :| p in ps && o == Lower(p);
      var k :| 0 <= k < |ps| && ps[k] == p;
      assert lowered[k] == o;
    }
  }

  /** Two option lists naming the same options, in any order and with any repetition, are judged alike. */
  lemma OptionSetOrderFree(ps: seq<string>, qs: seq<string>)
    requires |ps| > 0 && |qs| > 0
    requires forall k :: 0 <= k < |ps| ==> ' ' !in ps[k] && ',' !in ps[k]
    requires forall k :: 0 <= k < |qs| ==> ' ' !in qs[k] && ',' !in qs[k]
    requires forall p :: p in ps <==> p in qs
    ensures OptionSet(Join(ps, ",")) == OptionSet(Join(qs, ","))
  {
    OptionSetOfJoin(ps);
    OptionSetOfJoin(qs);
    assert (set p | p in ps :: Lower(p)) == (set p | p in qs :: Lower(p));
  }

  /* ---------------- NAT ---------------- */

  /** How one alternative of a NAT key decides a candidate value: a hit, a miss, or a `ValueError`. */
  datatype Decision = Hit | Miss | Malformed

  /** An interval alternative split on `to`: exactly two numbers, both bounds included. */
  function IntervalDecision(bounds: seq<string>, x: real): Decision {
    if |bounds| != 2 then Malformed
    else
      var lo, hi := ParseReal(bounds[0]), ParseReal(bounds[1]);
      if lo.None? || hi.None? then Malformed
      else if lo.value <= x <= hi.value then Hit
      else Miss
  }

  /** A point alternative: one number compared for equality. */
  function PointDecision(a: string, x: real): Decision {
    var p := ParseReal(a);
    if p.None? then Malformed else if p.value == x then Hit else Miss
  }

  /** One alternative, stripped: an interval when `to` occurs in it, otherwise a point. */
  function Decide(alt: string, x: real): Decision {
    var a := Strip(alt);
    if Contains(a, "to") then IntervalDecision(Split(a, "to"), x) else PointDecision(a, x)
  }

  /** The alternatives of a NAT key: spaces removed, split on `OR`. */
  function Alternatives(key: string): (alts: seq<string>)
    ensures |alts| > 0
  {
    Split(RemoveChar(key, ' '), "OR")
  }

  /** The loop over the alternatives from the `i`-th on: stop at the first hit; a malformed alternative ends it unanswered. */
  function AcceptFrom(alts: seq<string>, i: nat, x: real): bool
    requires i <= |alts|
    decreases |alts| - i
  {
    if i == |alts| then false
    else
      match Decide(alts[i], x)
      case Hit => true
      case Miss => AcceptFrom(alts, i + 1, x)
      case Malformed => false
  }

  function AltsAccept(alts: seq<string>, x: real): bool {
    AcceptFrom(alts, 0, x)
  }

  /** Some alternative from the `i`-th on is a hit, and every alternative between the `i`-th and it is a plain miss. */
  ghost predicate FirstDecisiveHitFrom(alts: seq<string>, i: nat, x: real) {
    exists k :: i <= k < |alts| && Decide(alts[k], x) == Hit && forall j :: i <= j < k ==> Decide(alts[j], x) == Miss
  }

  ghost predicate FirstDecisiveHit(alts: seq<string>, x: real) {
    FirstDecisiveHitFrom(alts, 0, x)
  }

  lemma {:induction false} AcceptFromFirstHit(alts: seq<string>, i: nat, x: real)
    requires i <= |alts|
    ensures AcceptFrom(alts, i, x) <==> FirstDecisiveHitFrom(alts, i, x)
    decreases |alts| - i
  {
    if i < |alts| {
      AcceptFromFirstHit(alts, i + 1, x);
      if Decide(alts[i], x) == Miss && FirstDecisiveHitFrom(alts, i + 1, x) {
        var k :| i + 1 <= k < |alts| && Decide(alts[k], x) == Hit && forall j :: i + 1 <= j < k ==> Decide(alts[j], x) == Miss;
        assert forall j :: i <= j < k ==> Decide(alts[j], x) == Miss;
      }
      if FirstDecisiveHitFrom(alts, i, x) {
        var k :| i <= k < |alts| && Decide(alts[k], x) == Hit && forall j :: i <= j < k ==> Decide(alts[j], x) == Miss;
        if k > i {
          assert Decide(alts[i], x) == Miss;
          assert FirstDecisiveHitFrom(alts, i + 1, x);
        }
      }
    }
  }

  /** The loop accepts exactly when the first alternative that is not a plain miss is a hit. */
  lemma AltsAcceptFirstHit(alts: seq<string>, x: real)
    ensures AltsAccept(alts, x) <==> FirstDecisiveHit(alts, x)
  {
    AcceptFromFirstHit(alts, 0, x);
  }

  /** A NAT response is correct when the candidate reads as a number that the key accepts. */
  function NatAccepts(key: string, cand: string): (ok: bool)
    ensures ok ==> ParseReal(cand).Some?
  {
    match ParseReal(cand)
    case None => false
    case Some(x) => AltsAccept(Alternatives(key), x)
  }

  /* ---------------- one response ---------------- */

  datatype Judgement = Judgement(isCorrect: bool, awarded: real)

  /**
   * The judgement of a cleaned candidate answer against a key value: the
   * `MTA` sentinel first, then by the key's question type; any other type
   * earns nothing.
   */
  function Judge(key: KeyValue, cand: string): (j: Judgement)
    ensures j.isCorrect ==> j.awarded == key.mark
    ensures !j.isCorrect && j.awarded != 0.0 ==>
      key.answer != "MTA" && key.qType == "MCQ" && j.awarded == -(key.mark / 3.0)
    ensures key.mark >= 0.0 ==> -(key.mark / 3.0) <= j.awarded <= key.mark
  {
    if key.answer == "MTA" then Judgement(true, key.mark)
    else if key.qType == "MCQ" then
      var ok := Lower(cand) == Lower(key.answer);
      Judgement(ok, if ok then key.mark else -(key.mark / 3.0))
    else if key.qType == "MSQ" then
      var ok := OptionSet(key.answer) == OptionSet(cand);
      Judgement(ok, if ok then key.mark else 0.0)
    else if key.qType == "NAT" then
      var ok := NatAccepts(key.answer, cand);
      Judgement(ok, if ok then key.mark else 0.0)
    else Judgement(false, 0.0)
  }

  /** The sentinel answer `MTA` is full marks, whatever the type and the candidate's answer. */
  lemma JudgeSentinel(key: KeyValue, cand: string)
    requires key.answer == "MTA"
    ensures Judge(key, cand) == Judgement(true, key.mark)
  {
  }

  /** A key type other than the three compared ones, without the sentinel, is never correct and earns nothing. */
  lemma JudgeOtherType(key: KeyValue, cand: string)
    requires key.answer != "MTA" && key.qType !in {"MCQ", "MSQ", "NAT"}
    ensures Judge(key, cand) == Judgement(false, 0.0)
  {
  }

  /** MCQ: correct exactly when the answers agree letter for letter ignoring case; a wrong answer costs a third of the mark. */
  lemma JudgeMcq(key: KeyValue, cand: string)
    requires key.answer != "MTA" && key.qType == "MCQ"
    ensures Judge(key, cand).isCorrect <==>
      |cand| == |key.answer| && forall k :: 0 <= k < |cand| ==> LowerChar(cand[k]) == LowerChar(key.answer[k])
    ensures !Judge(key, cand).isCorrect ==> Judge(key, cand).awarded == -(key.mark / 3.0)
  {
    if |cand| == |key.answer| && forall k :: 0 <= k < |cand| ==> LowerChar(cand[k]) == LowerChar(key.answer[k]) {
      assert Lower(cand) == Lower(key.answer);
    }
  }

  /** MCQ with mark 3: a wrong answer earns -1. */
  lemma McqPenaltyExample()
    ensures Judge(KeyValue("A", 3.0, "MCQ", Some(1)), "B") == Judgement(false, -1.0)
    ensures Judge(KeyValue("A", 3.0, "MCQ", Some(1)), "a") == Judgement(true, 3.0)
  {
    assert Lower("B")[0] == 'b';
    assert Lower("A")[0] == 'a';
  }

  /** MSQ: correct exactly when the option sets agree, and a wrong answer earns nothing. */
  lemma JudgeMsq(key: KeyValue, cand: string)
    requires key.answer != "MTA" && key.qType == "MSQ"
    ensures Judge(key, cand).isCorrect <==> forall o :: o in OptionSet(key.answer) <==> o in OptionSet(cand)
    ensures Judge(key, cand).awarded == if Judge(key, cand).isCorrect then key.mark else 0.0
  {
  }

  lemma OptionSetPair(p: string, q: string)
    requires |p| == 1 && |q| == 1 && p[0] != ' ' && p[0] != ',' && q[0] != ' ' && q[0] != ','
    ensures OptionSet(p + "," + q) == {Lower(p), Lower(q)}
  {
    assert Join([p, q], ",") == p + "," + q;
    OptionSetOfJoin([p, q]);
    assert [p, q][0] == p && [p, q][1] == q;
  }

  lemma OptionSetSingle(p: string)
    requires |p| == 1 && p[0] != ' ' && p[0] != ','
    ensures OptionSet(p) == {Lower(p)}
  {
    assert Join([p], ",") == p;
    OptionSetOfJoin([p]);
  }

  /** The option sets of `a,b`, `B,A` and `a`. */
  lemma ExampleOptionSets()
    ensures OptionSet("a,b") == {"a", "b"} && OptionSet("B,A") == {"b", "a"} && OptionSet("a") == {"a"}
  {
    assert "a,b" == "a" + "," + "b";
    assert "B,A" == "B" + "," + "A";
    OptionSetPair("a", "b");
    OptionSetPair("B", "A");
    OptionSetSingle("a");
    assert Lower("B") == "b" && Lower("A") == "a" && Lower("a") == "a" && Lower("b") == "b";
  }

  /** MSQ key `a,b`: the answer `B,A` is correct, `a` alone earns nothing. */
  lemma MsqExample()
    ensures Judge(KeyValue("a,b", 2.0, "MSQ", Some(7)), "B,A") == Judgement(true, 2.0)
    ensures Judge(KeyValue("a,b", 2.0, "MSQ", Some(7)), "a") == Judgement(false, 0.0)
  {
    ExampleOptionSets();
    assert "b" in OptionSet("a,b") && "b" !in OptionSet("a");
    assert "a,b"[0] != "MTA"[0] && "MSQ"[1] != "MCQ"[1];
    JudgeMsq(KeyValue("a,b", 2.0, "MSQ", Some(7)), "B,A");
    JudgeMsq(KeyValue("a,b", 2.0, "MSQ", Some(7)), "a");
  }

  /** NAT: correct exactly when the candidate is a number whose first decisive alternative is a hit; never negative. */
  lemma JudgeNat(key: KeyValue, cand: string)
    requires key.answer != "MTA" && key.qType == "NAT"
    ensures Judge(key, cand).isCorrect <==>
      ParseReal(cand).Some? && FirstDecisiveHit(Alternatives(key.answer), ParseReal(cand).value)
    ensures Judge(key, cand).awarded >= 0.0 || key.mark < 0.0
  {
    assert Judge(key, cand).isCorrect == NatAccepts(key.answer, cand);
    if ParseReal(cand).Some? {
      var x := ParseReal(cand).value;
      assert NatAccepts(key.answer, cand) == AltsAccept(Alternatives(key.answer), x);
      AltsAcceptFirstHit(Alternatives(key.answer), x);
    }
  }

  /* ---------------- NAT alternatives written as numbers ---------------- */

  /** Digits never contain `t` or `O`, nor whitespace at either end. */
  lemma DigitTextFacts(t: string)
    requires |t| > 0 && AllDigits(t)
    ensures 't' !in t && 'O' !in t && Strip(t) == t
  {
    StripDigits(t);
  }

  /** A point alternative written as `n` hits exactly the value `n`. */
  lemma DecidePoint(n: nat, x: real)
    ensures Decide(DecimalText(n), x) == if x == n as real then Hit else Miss
  {
    var t := DecimalText(n);
    DigitTextFacts(t);
    FindAbsent(t, "to");
    ParseRealText(n);
  }

  /** Two digit runs joined by `to` are left alone by stripping, contain `to`, and split back into the two runs. */
  lemma IntervalText(l: string, h: string)
    requires |l| > 0 && AllDigits(l) && |h| > 0 && AllDigits(h)
    ensures Strip(l + "to" + h) == l + "to" + h
    ensures Contains(l + "to" + h, "to")
    ensures Split(l + "to" + h, "to") == [l, h]
  {
    var a := l + "to" + h;
    DigitTextFacts(l);
    DigitTextFacts(h);
    assert a[0] == l[0] && a[|a| - 1] == h[|h| - 1];
    TrimKeeps(a, IsSpace);
    FindAfter(l, "to", h);
    assert Join([l, h], "to") == a;
    SplitJoin([l, h], "to");
  }

  /** An alternative that stripping leaves alone and that holds `to` is decided by its `to`-separated parts. */
  lemma DecideIsInterval(alt: string, x: real)
    requires Strip(alt) == alt && Contains(alt, "to")
    ensures Decide(alt, x) == IntervalDecision(Split(alt, "to"), x)
  {
  }

  /** Two parts that read as numbers are the closed interval between them. */
  lemma IntervalOfNumbers(l: string, h: string, lo: real, hi: real, x: real)
    requires ParseReal(l) == Some(lo) && ParseReal(h) == Some(hi)
    ensures IntervalDecision([l, h], x) == if lo <= x <= hi then Hit else Miss
  {
  }

  /** An alternative that stripping leaves alone and that splits on `to` into two numbers is that closed interval. */
  lemma DecideBounds(alt: string, l: string, h: string, lo: real, hi: real, x: real)
    requires Strip(alt) == alt && Contains(alt, "to") && Split(alt, "to") == [l, h]
    requires ParseReal(l) == Some(lo) && ParseReal(h) == Some(hi)
    ensures Decide(alt, x) == if lo <= x <= hi then Hit else Miss
  {
    DecideIsInterval(alt, x);
    IntervalOfNumbers(l, h, lo, hi, x);
  }

  /** An interval alternative written as `lotohi` hits exactly the values between the bounds, both included. */
  lemma DecideInterval(lo: nat, hi: nat, x: real)
    ensures Decide(DecimalText(lo) + "to" + DecimalText(hi), x) == if lo as real <= x <= hi as real then Hit else Miss
  {
    var l, h := DecimalText(lo), DecimalText(hi);
    IntervalText(l, h);
    ParseRealText(lo);
    ParseRealText(hi);
    DecideBounds(l + "to" + h, l, h, lo as real, hi as real, x);
  }

  /* ---------------- all responses ---------------- */

  /** One entry of `detailed_results`. */
  datatype Response = Response(
    questionNo: Option<nat>,
    questionId: int,
    userAnswer: string,
    correctAnswer: string,
    isCorrect: bool,
    marksAwarded: real)

  /** The question id of a response as `int(...)` reads it. */
  function IdOf(item: Item): Option<int>
    requires HasResponseKeys(item)
  {
    ParseInt(item["question_Id"])
  }

  /** The result for a response whose id is in the key: the cleaned answer judged against the key's entry. */
  function Respond(id: int, cand: string, key: map<int, KeyValue>): (r: Response)
    requires id in key
    ensures r.questionId == id && r.correctAnswer == key[id].answer && r.userAnswer == Clean(cand)
    ensures r.questionNo == key[id].questionNo
    ensures (r.isCorrect, r.marksAwarded) == (Judge(key[id], Clean(cand)).isCorrect, Judge(key[id], Clean(cand)).awarded)
  {
    var v := key[id];
    var j := Judge(v, Clean(cand));
    Response(v.questionNo, id, Clean(cand), v.answer, j.isCorrect, j.awarded)
  }

  /** What one pass of the loop body does: raise on a non-integer id, skip an id not in the key, or emit a result. */
  datatype Step = BadId | Skip | Emit(response: Response)

  function StepOf(item: Item, key: map<int, KeyValue>): (s: Step)
    requires HasResponseKeys(item)
    ensures s.BadId? <==> IdOf(item).None?
    ensures s.Skip? <==> IdOf(item).Some? && IdOf(item).value !in key
    ensures s.Emit? ==>
      && IdOf(item).Some? && IdOf(item).value in key
      && s.response == Respond(IdOf(item).value, item["candidate_answer"], key)
  {
    match IdOf(item)
    case None => BadId
    case Some(id) => if id in key then Emit(Respond(id, item["candidate_answer"], key)) else Skip
  }

  /**
   * The loop's control from the `i`-th step on: the first `BadId` ends it
   * with that position, otherwise the emitted results are collected in order.
   */
  function RunFrom(steps: seq<Step>, i: nat): (r: Result<seq<Response>, nat>)
    requires i <= |steps|
    ensures r.Failure? ==>
      && i <= r.error < |steps|
      && steps[r.error].BadId?
      && forall j :: i <= j < r.error ==> !steps[j].BadId?
    ensures r.Success? ==> forall j :: i <= j < |steps| ==> !steps[j].BadId?
    decreases |steps| - i
  {
    if i == |steps| then Success([])
    else
      match steps[i]
      case BadId => Failure(i)
      case Skip => RunFrom(steps, i + 1)
      case Emit(resp) =>
        match RunFrom(steps, i + 1)
        case Failure(k) => Failure(k)
        case Success(rs) => Success([resp] + rs)
  }

  /** The loop body applied to every response, in order. */
  function Steps(items: seq<Item>, key: map<int, KeyValue>): (steps: seq<Step>)
    requires WellShaped(items)
    ensures |steps| == |items|
  {
    seq(|items|, i requires 0 <= i < |items| => StepOf(items[i], key))
  }

  /** The scoring loop of `predictRank` over the scraped responses. */
  function ScoreItems(items: seq<Item>, key: map<int, KeyValue>): Result<seq<Response>, nat>
    requires WellShaped(items)
  {
    RunFrom(Steps(items, key), 0)
  }

  /** The positions from the `i`-th on of the steps that emit a result, ascending. */
  function EmittedFrom(steps: seq<Step>, i: nat): (ix: seq<nat>)
    requires i <= |steps|
    ensures forall k :: 0 <= k < |ix| ==> i <= ix[k] < |steps| && steps[ix[k]].Emit?
    ensures forall k, l :: 0 <= k < l < |ix| ==> ix[k] < ix[l]
    ensures forall j :: i <= j < |steps| && steps[j].Emit? ==> j in ix
    decreases |steps| - i
  {
    if i == |steps| then []
    else
      var tail := EmittedFrom(steps, i + 1);
      if steps[i].Emit? then [i] + tail else tail
  }

  lemma {:induction false} RunFromEmitted(steps: seq<Step>, i: nat)
    requires i <= |steps|
    requires RunFrom(steps, i).Success?
    ensures var rs := RunFrom(steps, i).value; var ix := EmittedFrom(steps, i);
      && |rs| == |ix|
      && forall k :: 0 <= k < |ix| ==> rs[k] == steps[ix[k]].response
    decreases |steps| - i
  {
    if i < |steps| {
      RunFromEmitted(steps, i + 1);
    }
  }

  /** The loop fails exactly when some response's id is not an integer, and then names the first such response. */
  lemma ScoreItemsFails(items: seq<Item>, key: map<int, KeyValue>)
    requires WellShaped(items)
    ensures var r := ScoreItems(items, key);
      r.Failure? <==> exists i :: 0 <= i < |items| && IdOf(items[i]).None?
    ensures var r := ScoreItems(items, key);
      r.Failure? ==> r.error < |items| && IdOf(items[r.error]).None? && forall j :: 0 <= j < r.error ==> IdOf(items[j]).Some?
  {
    var steps := Steps(items, key);
    assert forall i :: 0 <= i < |items| ==> steps[i] == StepOf(items[i], key);
  }

  /** The positions that emit a result are exactly those whose id is an integer present in the key. */
  lemma EmittedKeyed(items: seq<Item>, key: map<int, KeyValue>)
    requires WellShaped(items)
    ensures var ix := EmittedFrom(Steps(items, key), 0);
      && (forall k :: 0 <= k < |ix| ==> ix[k] < |items| && IdOf(items[ix[k]]).Some? && IdOf(items[ix[k]]).value in key)
      && (forall j :: 0 <= j < |items| && IdOf(items[j]).Some? && IdOf(items[j]).value in key ==> j in ix)
  {
    var steps := Steps(items, key);
    assert forall i :: 0 <= i < |items| ==> steps[i] == StepOf(items[i], key);
  }

  /**
   * When the loop succeeds there is one result per emitting position, in
   * response order, each the judgement of that response against the key.
   */
  lemma ScoreItemsResults(items: seq<Item>, key: map<int, KeyValue>)
    requires WellShaped(items)
    requires ScoreItems(items, key).Success?
    ensures var rs := ScoreItems(items, key).value; var ix := EmittedFrom(Steps(items, key), 0);
      && |rs| == |ix|
      && forall k :: 0 <= k < |ix| ==>
           && ix[k] < |items| && IdOf(items[ix[k]]).Some? && IdOf(items[ix[k]]).value in key
           && rs[k] == Respond(IdOf(items[ix[k]]).value, items[ix[k]]["candidate_answer"], key)
  {
    var steps := Steps(items, key);
    RunFromEmitted(steps, 0);
    var ix := EmittedFrom(steps, 0);
    forall k | 0 <= k < |ix|
      ensures ix[k] < |items| && IdOf(items[ix[k]]).Some? && IdOf(items[ix[k]]).value in key
      ensures steps[ix[k]].response == Respond(IdOf(items[ix[k]]).value, items[ix[k]]["candidate_answer"], key)
    {
      assert steps[ix[k]] == StepOf(items[ix[k]], key);
    }
  }

  /** `total_marks`: the plain sum of the marks awarded. */
  function Total(rs: seq<Response>): real
    decreases |rs|
  {
    if |rs| == 0 then 0.0 else rs[0].marksAwarded + Total(rs[1..])
  }

  /** The sum of the marks of the keyed questions the results answer. */
  function MarksOf(rs: seq<Response>, key: map<int, KeyValue>): real
    requires forall k :: 0 <= k < |rs| ==> rs[k].questionId in key
    decreases |rs|
  {
    if |rs| == 0 then 0.0 else key[rs[0].questionId].mark + MarksOf(rs[1..], key)
  }

  /** A result for a keyed question earns between minus a third of its mark and its mark. */
  predicate InBounds(r: Response, key: map<int, KeyValue>) {
    r.questionId in key && -(key[r.questionId].mark / 3.0) <= r.marksAwarded <= key[r.questionId].mark
  }

  lemma {:induction false} TotalBoundsFrom(steps: seq<Step>, i: nat, key: map<int, KeyValue>)
    requires i <= |steps|
    requires RunFrom(steps, i).Success?
    requires forall j :: 0 <= j < |steps| && steps[j].Emit? ==> InBounds(steps[j].response, key)
    ensures var rs := RunFrom(steps, i).value;
      && (forall k :: 0 <= k < |rs| ==> rs[k].questionId in key)
      && -(MarksOf(rs, key) / 3.0) <= Total(rs) <= MarksOf(rs, key)
    decreases |steps| - i
  {
    if i < |steps| {
      TotalBoundsFrom(steps, i + 1, key);
      var rs := RunFrom(steps, i).value;
      if steps[i].Emit? {
        assert rs[1..] == RunFrom(steps, i + 1).value;
      }
    }
  }

  /**
   * With non-negative marks the total lies between minus a third of the
   * answered marks (every answer a wrong MCQ) and the answered marks (every
   * answer correct); it is not clamped at zero.
   */
  lemma TotalBounds(items: seq<Item>, key: map<int, KeyValue>)
    requires WellShaped(items)
    requires ScoreItems(items, key).Success?
    requires forall id :: id in key ==> key[id].mark >= 0.0
    ensures var rs := ScoreItems(items, key).value;
      && (forall k :: 0 <= k < |rs| ==> rs[k].questionId in key)
      && -(MarksOf(rs, key) / 3.0) <= Total(rs) <= MarksOf(rs, key)
  {
    var steps := Steps(items, key);
    forall j | 0 <= j < |steps| && steps[j].Emit? ensures InBounds(steps[j].response, key) {
      assert steps[j] == StepOf(items[j], key);
    }
    TotalBoundsFrom(steps, 0, key);
  }

  /** `int("5")` is 5 and cleaning the answer `B` leaves it alone. */
  lemma ExampleTexts()
    ensures ParseInt("5") == Some(5) && Clean("B") == "B"
  {
    assert DecimalText(5) == "5";
    ParseIntText(5);
    assert !IsSpace('B');
    TrimKeeps("B", IsSpace);
  }

  /** The response `{question_Id: "5", candidate_answer: "B"}` against a key with `A` worth 3 for MCQ id 5. */
  lemma WrongMcqStep(item: Item, key: map<int, KeyValue>)
    requires item == map["question_no" := "1", "q_type" := "MCQ", "question_Id" := "5", "candidate_answer" := "B"]
    requires key == map[5 := KeyValue("A", 3.0, "MCQ", Some(1))]
    ensures HasResponseKeys(item)
    ensures StepOf(item, key) == Emit(Response(Some(1), 5, "B", "A", false, -1.0))
  {
    ExampleId(item);
    WrongMcqResponse(key);
    EmitStep(item, key, 5, "B");
  }

  lemma ExampleId(item: Item)
    requires item == map["question_no" := "1", "q_type" := "MCQ", "question_Id" := "5", "candidate_answer" := "B"]
    ensures HasResponseKeys(item) && IdOf(item) == Some(5) && item["candidate_answer"] == "B"
  {
    assert item["question_Id"] == "5" && item["candidate_answer"] == "B";
    ExampleTexts();
  }

  lemma WrongMcqResponse(key: map<int, KeyValue>)
    requires key == map[5 := KeyValue("A", 3.0, "MCQ", Some(1))]
    ensures 5 in key && Respond(5, "B", key) == Response(Some(1), 5, "B", "A", false, -1.0)
  {
    ExampleTexts();
    McqPenaltyExample();
  }

  lemma EmitStep(item: Item, key: map<int, KeyValue>, id: int, cand: string)
    requires HasResponseKeys(item) && IdOf(item) == Some(id) && id in key && item["candidate_answer"] == cand
    ensures StepOf(item, key) == Emit(Respond(id, cand, key))
  {
  }

  /** One wrong MCQ answer worth 3 makes the total -1: the total is not clamped at zero. */
  lemma NegativeTotalExample(item: Item, key: map<int, KeyValue>)
    requires item == map["question_no" := "1", "q_type" := "MCQ", "question_Id" := "5", "candidate_answer" := "B"]
    requires key == map[5 := KeyValue("A", 3.0, "MCQ", Some(1))]
    ensures WellShaped([item])
    ensures ScoreItems([item], key) == Success([Response(Some(1), 5, "B", "A", false, -1.0)])
    ensures Total(ScoreItems([item], key).value) == -1.0
  {
    WrongMcqStep(item, key);
    var steps := Steps([item], key);
    var resp := Response(Some(1), 5, "B", "A", false, -1.0);
    assert steps == [Emit(resp)];
    assert RunFrom(steps, 1) == Success([]);
    assert [resp] + [] == [resp];
    assert RunFrom(steps, 0) == Success([resp] + []);
    assert Total([resp]) == resp.marksAwarded + Total([]);
  }
}

/**
 * The answer-key loader of `rankpredictor/utils.py`: the header check of
 * `parse_csv`, the per-row validation and answer canonicalisation of
 * `validate_row`, and the all-or-nothing decision of `save_answer_sheet_data`.
 */
module AnswerKey {
  import opened Base
  import opened PyText
  import opened PyNumber

  /* ---------------- parse_csv ---------------- */

  /**
   * One data line of the uploaded CSV as `csv.DictReader` hands it over. A
   * field is `None` when the line is too short to reach its column.
   */
  datatype Row = Row(
    questionNo: Option<string>,
    questionId: Option<string>,
    qType: Option<string>,
    answer: Option<string>,
    mark: Option<string>)

  const RequiredHeaders: set<string> := {"question_no", "question_Id", "q_type", "answer", "mark"}

  datatype CsvError = MissingHeaders

  /** `record.get(name)` */
  function Field(record: map<string, Option<string>>, name: string): Option<string> {
    if name in record then record[name] else None
  }

  /**
   * `parse_csv` after decoding: the header must name every required column
   * (extra columns are allowed, order is free); each record becomes one row.
   */
  function ParseCsv(fieldnames: seq<string>, records: seq<map<string, Option<string>>>): (r: Result<seq<Row>, CsvError>)
    ensures r.Failure? <==> exists h :: h in RequiredHeaders && h !in fieldnames
    ensures r.Success? ==> |r.value| == |records|
    ensures r.Success? ==> forall i :: 0 <= i < |records| ==>
      && r.value[i].questionNo == Field(records[i], "question_no")
      && r.value[i].questionId == Field(records[i], "question_Id")
      && r.value[i].qType == Field(records[i], "q_type")
      && r.value[i].answer == Field(records[i], "answer")
      && r.value[i].mark == Field(records[i], "mark")
  {
    if !(RequiredHeaders <= set f | f in fieldnames) then Failure(MissingHeaders)
    else Success(seq(|records|, i requires 0 <= i < |records| =>
      Row(Field(records[i], "question_no"), Field(records[i], "question_Id"),
          Field(records[i], "q_type"), Field(records[i], "answer"), Field(records[i], "mark"))))
  }

  /* ---------------- validate_row ---------------- */

  const QuestionTypes: set<string> := {"MCQ", "MSQ", "NAT", "MTA"}

  /** Python truthiness of a field: present and non-empty. */
  predicate Filled(f: Option<string>) {
    f.Some? && |f.value| > 0
  }

  /** The `ValueError`s `validate_row` raises, one per message it can produce. */
  datatype Reason =
    | MissingFields
    | InvalidType
    | InvalidMark
    | InvalidMcq
    | InvalidMsq
    | InvalidNat
    | InvalidMta

  /**
   * What `validate_row` does with a row: accept it, with the answer it stores
   * and the mark as a number; reject it with a `ValueError`; or crash with an
   * `AttributeError` (an MCQ or MSQ row without an answer), which the batch
   * loop does not catch.
   */
  datatype Verdict = Accepted(answer: Option<string>, mark: real) | Rejected(reason: Reason) | Crashed

  /** The options of an MCQ/MSQ answer: `[opt.strip() for opt in answer.strip('()').split(',')]`. */
  function Options(answer: string): (r: seq<string>)
    ensures |r| > 0
  {
    var parts := Split(StripParens(answer), ",");
    seq(|parts|, i requires 0 <= i < |parts| => Strip(parts[i]))
  }

  /** A one-character alphabetic option. */
  predicate IsLetter(o: string) {
    |o| == 1 && IsAlpha(o[0])
  }

  /** `t` holds one ASCII letter, at position `i`, and nothing but whitespace around it. */
  predicate PaddedLetter(t: string, i: nat) {
    i < |t| && IsAlpha(t[i]) && forall k :: 0 <= k < |t| && k != i ==> IsSpace(t[k])
  }

  /**
   * The MCQ rule: exactly one option, a single letter, stored with its case
   * unchanged. So an answer is accepted exactly when, its outer parentheses
   * stripped, it is one letter with only whitespace around it, and that
   * letter is what is stored.
   */
  function CanonicalMcq(answer: string): (r: Option<string>)
    ensures r.Some? <==> exists i: nat :: PaddedLetter(StripParens(answer), i)
    ensures forall i: nat :: PaddedLetter(StripParens(answer), i) ==> r == Some([StripParens(answer)[i]])
    ensures r.Some? ==> IsLetter(r.value)
  {
    var opts := Options(answer);
    McqRule(answer);
    if |opts| == 1 && IsLetter(opts[0]) then Some(opts[0]) else None
  }

  /** One single-letter option is the same thing as one letter padded with whitespace. */
  lemma McqRule(answer: string)
    ensures |Options(answer)| == 1 && IsLetter(Options(answer)[0])
      <==> exists i: nat :: PaddedLetter(StripParens(answer), i)
    ensures forall i: nat :: PaddedLetter(StripParens(answer), i) ==> Options(answer) == [[StripParens(answer)[i]]]
  {
    var t := StripParens(answer);
    var opts := Options(answer);
    var parts := Split(t, ",");
    OptionsShape(answer);
    if |opts| == 1 && IsLetter(opts[0]) {
      var j := LetterIsPadded(t);
    }
    forall i: nat | PaddedLetter(t, i) ensures opts == [[t[i]]] {
      PaddedIsLetter(t, i);
      assert |opts| == 1 && opts[0] == Strip(t);
    }
  }

  /** The options are the stripped pieces of the answer split on `,`. */
  lemma OptionsShape(answer: string)
    ensures |Options(answer)| == |Split(StripParens(answer), ",")|
    ensures forall k :: 0 <= k < |Options(answer)| ==> Options(answer)[k] == Strip(Split(StripParens(answer), ",")[k])
  {
  }

  /** A text that splits into one piece stripping to a letter is that letter padded with whitespace. */
  lemma LetterIsPadded(t: string) returns (j: nat)
    requires |Split(t, ",")| == 1 && IsLetter(Strip(Split(t, ",")[0]))
    ensures PaddedLetter(t, j)
  {
    var parts := Split(t, ",");
    assert Join(parts, ",") == parts[0];
    var st := Strip(t);
    j := TrimSpan(t, IsSpace);
    assert t[j] == st[0];
  }

  /** A letter padded with whitespace holds no comma, and stripping leaves the letter. */
  lemma PaddedIsLetter(t: string, i: nat)
    requires PaddedLetter(t, i)
    ensures Split(t, ",") == [t] && Strip(t) == [t[i]]
  {
    forall k | 0 <= k < |t| ensures t[k] != ',' {
      if k != i { assert IsSpace(t[k]); } else { assert IsAlpha(t[k]); }
    }
    FindAbsent(t, ",");
    var st := Strip(t);
    var j := TrimSpan(t, IsSpace);
    AlphaNotSpace(t[i]);
    assert j <= i < j + |st|;
    assert t[j] == st[0] && t[j + |st| - 1] == st[|st| - 1];
    assert j == i && |st| == 1;
  }

  /** The MSQ rule: every option a single letter; stored comma-joined, in order, duplicates kept. */
  function CanonicalMsq(answer: string): (r: Option<string>)
    ensures r.Some? <==> forall k :: 0 <= k < |Options(answer)| ==> IsLetter(Options(answer)[k])
    ensures r.Some? ==> Split(r.value, ",") == Options(answer)
  {
    var opts := Options(answer);
    if forall k :: 0 <= k < |opts| ==> IsLetter(opts[k]) then
      LettersJoinSplit(opts);
      Some(Join(opts, ","))
    else None
  }

  /** Single letters hold no comma, so joining them with commas splits back into them. */
  lemma LettersJoinSplit(opts: seq<string>)
    requires |opts| > 0 && forall k :: 0 <= k < |opts| ==> IsLetter(opts[k])
    ensures Split(Join(opts, ","), ",") == opts
  {
    forall k | 0 <= k < |opts| ensures ","[0] !in opts[k] {
      assert opts[k] == [opts[k][0]];
    }
    SplitJoin(opts, ",");
  }

  /**
   * Where the match of `\((.*?)\)` that opened just before `t` closes: the
   * first `)` of `t`, provided no newline comes before it (`.` does not match
   * a newline).
   */
  function CloseAt(t: string): (r: Option<nat>)
    ensures r.Some? ==> r.value < |t| && t[r.value] == ')'
    ensures r.Some? ==> forall k :: 0 <= k < r.value ==> t[k] != ')' && t[k] != '\n'
    ensures r.None? ==> forall k :: 0 <= k < |t| && t[k] == ')' ==> '\n' in t[..k]
    decreases |t|
  {
    if |t| == 0 then None
    else if t[0] == ')' then Some(0)
    else if t[0] == '\n' then None
    else
      match CloseAt(t[1..])
      case None =>
        assert forall k :: 1 <= k <= |t| ==> t[..k] == [t[0]] + t[1..][..k - 1];
        None
      case Some(j) => Some(j + 1)
  }

  /** `re.findall(r'\((.*?)\)', s)`: the texts of the parenthesised groups, in order. */
  function Groups(s: string): (r: seq<string>)
    ensures forall k :: 0 <= k < |r| ==> ')' !in r[k] && '\n' !in r[k]
    decreases |s|
  {
    if |s| == 0 then []
    else if s[0] == '(' then
      match CloseAt(s[1..])
      case Some(j) => [s[1..1 + j]] + Groups(s[j + 2..])
      case None => Groups(s[1..])
    else Groups(s[1..])
  }

  /** A NAT group with every `-` written as ` to `. */
  function RangeText(g: string): string {
    Replace(g, '-', " to ")
  }

  /** The NAT rule: the groups, each with `-` spelled ` to `, joined by ` OR `. */
  function NatCanonical(answer: string): string {
    var gs := Groups(answer);
    Join(seq(|gs|, i requires 0 <= i < |gs| => RangeText(gs[i])), " OR ")
  }

  /** The four question types `validate_row` allows. */
  datatype QType = MCQ | MSQ | NAT | MTA

  /** `q_type in {'MCQ', 'MSQ', 'NAT', 'MTA'}`, with the type it names. */
  function TypeOf(s: string): (t: Option<QType>)
    ensures t.Some? <==> s in QuestionTypes
    ensures t == Some(MCQ) <==> s == "MCQ"
    ensures t == Some(MSQ) <==> s == "MSQ"
    ensures t == Some(NAT) <==> s == "NAT"
    ensures t == Some(MTA) <==> s == "MTA"
  {
    if s == "MCQ" then Some(MCQ)
    else if s == "MSQ" then Some(MSQ)
    else if s == "NAT" then Some(NAT)
    else if s == "MTA" then Some(MTA)
    else None
  }

  /**
   * The answer rule of each type: an MCQ answer is one letter, an MSQ answer
   * a list of letters, a NAT answer anything present, an MTA answer empty or
   * a number.
   */
  predicate FollowsRule(t: QType, answer: Option<string>) {
    match t
    case MCQ => answer.Some? && CanonicalMcq(answer.value).Some?
    case MSQ => answer.Some? && CanonicalMsq(answer.value).Some?
    case NAT => answer.Some?
    case MTA => !Filled(answer) || ParseReal(answer.value).Some?
  }

  /** The question-type branch of `validate_row`, for a row whose other fields passed. */
  function CheckAnswer(t: QType, answer: Option<string>, mark: real): (v: Verdict)
    ensures v.Rejected? ==> v.reason != MissingFields && v.reason != InvalidType && v.reason != InvalidMark
    ensures v.Crashed? <==> (t == MCQ || t == MSQ) && answer.None?
    ensures v.Accepted? ==> v.mark == mark
  {
    match t
    case MCQ =>
      if answer.None? then Crashed
      else (match CanonicalMcq(answer.value)
        case Some(a) => Accepted(Some(a), mark)
        case None => Rejected(InvalidMcq))
    case MSQ =>
      if answer.None? then Crashed
      else (match CanonicalMsq(answer.value)
        case Some(a) => Accepted(Some(a), mark)
        case None => Rejected(InvalidMsq))
    case NAT =>
      if answer.None? then Rejected(InvalidNat)
      else Accepted(Some(NatCanonical(answer.value)), mark)
    case MTA =>
      if Filled(answer) && ParseReal(answer.value).None? then Rejected(InvalidMta)
      else Accepted(answer, mark)
  }

  /** The type's branch accepts exactly the answers that follow the type's rule. */
  lemma CheckAnswerRule(t: QType, answer: Option<string>, mark: real)
    ensures CheckAnswer(t, answer, mark).Accepted? <==> FollowsRule(t, answer)
  {
  }

  /** True when the row's required fields are all filled. */
  predicate FieldsFilled(row: Row) {
    Filled(row.questionNo) && Filled(row.questionId) && Filled(row.qType) && Filled(row.mark)
  }

  /**
   * `validate_row`: required fields first, then the question type, then the
   * mark, then the type's answer rule.
   */
  function ValidateRow(row: Row): (v: Verdict)
    ensures v.Accepted? ==>
      && FieldsFilled(row) && TypeOf(row.qType.value).Some?
      && ParseReal(row.mark.value) == Some(v.mark) && v.mark >= 0.0
  {
    if !FieldsFilled(row) then
      Rejected(MissingFields)
    else
      match TypeOf(row.qType.value)
      case None => Rejected(InvalidType)
      case Some(t) =>
        match ParseReal(row.mark.value)
        case None => Rejected(InvalidMark)
        case Some(m) => if m < 0.0 then Rejected(InvalidMark) else CheckAnswer(t, row.answer, m)
  }

  /**
   * The rejections that do not depend on the answer: a missing required field
   * (the answer is not one), a type outside the four, a mark that is not a
   * number or is negative, tried in that order.
   */
  lemma RejectsHeaderFields(row: Row)
    ensures ValidateRow(row) == Rejected(MissingFields) <==> !FieldsFilled(row)
    ensures ValidateRow(row) == Rejected(InvalidType) <==>
      FieldsFilled(row) && row.qType.value !in QuestionTypes
    ensures ValidateRow(row) == Rejected(InvalidMark) <==>
      && FieldsFilled(row) && row.qType.value in QuestionTypes
      && (ParseReal(row.mark.value).None? || ParseReal(row.mark.value).value < 0.0)
  {
  }

  /** What an accepted row stores as its answer, per question type. */
  lemma AcceptedAnswer(row: Row)
    requires ValidateRow(row).Accepted?
    ensures row.qType == Some("MCQ") ==>
      row.answer.Some? && ValidateRow(row).answer == CanonicalMcq(row.answer.value)
    ensures row.qType == Some("MSQ") ==>
      row.answer.Some? && ValidateRow(row).answer == CanonicalMsq(row.answer.value)
    ensures row.qType == Some("NAT") ==>
      row.answer.Some? && ValidateRow(row).answer == Some(NatCanonical(row.answer.value))
    ensures row.qType == Some("MTA") ==>
      ValidateRow(row).answer == row.answer && (Filled(row.answer) ==> ParseReal(row.answer.value).Some?)
  {
  }

  /**
   * Which rows `validate_row` accepts once the required fields, the type and
   * the mark have passed: an MCQ or MSQ row exactly when its answer follows
   * the type's rule, a NAT row exactly when it has an answer, an MTA row
   * exactly when its answer is empty or a number. The accepted mark is the
   * parsed mark.
   */
  lemma AcceptsValidRows(row: Row)
    requires FieldsFilled(row) && row.qType.value in QuestionTypes
    requires ParseReal(row.mark.value).Some? && ParseReal(row.mark.value).value >= 0.0
    ensures row.qType.value == "MCQ" ==>
      (ValidateRow(row).Accepted? <==> row.answer.Some? && CanonicalMcq(row.answer.value).Some?)
    ensures row.qType.value == "MSQ" ==>
      (ValidateRow(row).Accepted? <==> row.answer.Some? && CanonicalMsq(row.answer.value).Some?)
    ensures row.qType.value == "NAT" ==> (ValidateRow(row).Accepted? <==> row.answer.Some?)
    ensures row.qType.value == "MTA" ==>
      (ValidateRow(row).Accepted? <==> !Filled(row.answer) || ParseReal(row.answer.value).Some?)
    ensures ValidateRow(row).Accepted? ==> ValidateRow(row).mark == ParseReal(row.mark.value).value
  {
    var t := TypeOf(row.qType.value).value;
    assert ValidateRow(row) == CheckAnswer(t, row.answer, ParseReal(row.mark.value).value);
    CheckAnswerRule(t, row.answer, ParseReal(row.mark.value).value);
  }

  /** Only an MCQ or MSQ row without an answer crashes validation. */
  lemma CrashesOnlyWithoutAnswer(row: Row)
    requires ValidateRow(row).Crashed?
    ensures FieldsFilled(row) && row.answer.None?
    ensures row.qType.value == "MCQ" || row.qType.value == "MSQ"
  {
  }

  /** An MCQ or MSQ row without an answer, whose other fields pass, crashes validation. */
  lemma CrashesWithoutAnswer(row: Row)
    requires FieldsFilled(row) && (row.qType.value == "MCQ" || row.qType.value == "MSQ") && row.answer.None?
    requires ParseReal(row.mark.value).Some? && ParseReal(row.mark.value).value >= 0.0
    ensures ValidateRow(row).Crashed?
  {
  }

  /** NAT answers never fail validation once the row's other fields pass. */
  lemma NatNeverFails(row: Row)
    requires FieldsFilled(row) && row.qType == Some("NAT") && row.answer.Some?
    requires ParseReal(row.mark.value).Some? && ParseReal(row.mark.value).value >= 0.0
    ensures ValidateRow(row) == Accepted(Some(NatCanonical(row.answer.value)), ParseReal(row.mark.value).value)
  {
  }

  /* ---------------- save_answer_sheet_data ---------------- */

  /** The `AnswerSheet` object built for an accepted row, before it reaches storage. */
  datatype Sheet = Sheet(questionNo: string, questionId: string, answer: Option<string>, qType: string, mark: real)

  /** The `AnswerSheet` object for a row its verdict accepted: the answer and mark come from the verdict. */
  function SheetFrom(row: Row, v: Verdict): Sheet
    requires v.Accepted? && FieldsFilled(row)
  {
    Sheet(row.questionNo.value, row.questionId.value, v.answer, row.qType.value, v.mark)
  }

  /**
   * What `bulk_create` makes of an id text bound for a positive-integer
   * column: `int(text)`, which the database then requires to be
   * non-negative. `None` where `int` raises or the value is negative.
   */
  function ColumnId(text: string): (r: Option<nat>)
    ensures r.Some? ==> ParseInt(text) == Some(r.value as int)
    ensures r.None? <==> ParseInt(text).None? || ParseInt(text).value < 0
  {
    match ParseInt(text)
    case None => None
    case Some(n) => if n < 0 then None else Some(n)
  }

  /** `str(n)` converts back to `n`, and a negative number is refused. */
  lemma ColumnIdText(n: nat)
    ensures ColumnId(DecimalText(n)) == Some(n)
    ensures ColumnId("-" + DecimalText(n + 1)).None?
  {
    ParseIntText(n);
    ParseIntText(n + 1);
  }

  /**
   * A text holding a character that is neither a digit, a sign nor
   * whitespace, such as `1.5` or `Q7`, is not an integer id.
   */
  lemma ColumnIdRejects(text: string, c: char)
    requires c in text && !IsDigit(c) && c != '+' && c != '-' && !IsSpace(c)
    ensures ColumnId(text).None?
  {
    var t := Strip(text);
    var j := TrimSpan(text, IsSpace);
    var k :| 0 <= k < |text| && text[k] == c;
    assert j <= k < j + |t| && t[k - j] == c;
    assert !AllDigits(t);
    if |t| > 0 && (t[0] == '+' || t[0] == '-') {
      assert t[1..][k - j - 1] == c;
      assert !AllDigits(t[1..]);
    }
  }

  /** The database row written for a sheet: both ids converted to integers. */
  datatype Record = Record(questionNo: nat, questionId: nat, answer: Option<string>, qType: string, mark: real)

  /** Both ids of a sheet convert. */
  predicate IdsStorable(s: Sheet) {
    ColumnId(s.questionNo).Some? && ColumnId(s.questionId).Some?
  }

  function RecordOf(s: Sheet): Record
    requires IdsStorable(s)
  {
    Record(ColumnId(s.questionNo).value, ColumnId(s.questionId).value, s.answer, s.qType, s.mark)
  }

  /**
   * `bulk_create(answer_sheets)`: every record is written, or, when some
   * id does not convert, the statement raises and none is.
   */
  function StoreSheets(sheets: seq<Sheet>): (r: Option<seq<Record>>)
    ensures r.Some? <==> forall i :: 0 <= i < |sheets| ==> IdsStorable(sheets[i])
    ensures r.Some? ==> |r.value| == |sheets| && forall i :: 0 <= i < |sheets| ==> r.value[i] == RecordOf(sheets[i])
  {
    if forall i :: 0 <= i < |sheets| ==> IdsStorable(sheets[i]) then
      Some(seq(|sheets|, i requires 0 <= i < |sheets| => RecordOf(sheets[i])))
    else None
  }

  /** One entry of the aggregated error list: 1-based row number, the row's question number, the reason. */
  datatype RowError = RowError(row: nat, questionNo: Option<string>, reason: Reason)

  /**
   * Why a batch is refused. All of them reach the caller as one
   * `ValueError("Unexpected error: …")`, the outer handler rewrapping them;
   * the variant stands for the message the text carries.
   */
  datatype SaveError =
    | SlotNotFound
    | RowErrors(errors: seq<RowError>)
    | Unexpected(row: nat)
    | StoreFailed

  /** The verdict on every row, in order. */
  function Verdicts(rows: seq<Row>): (vs: seq<Verdict>)
    ensures |vs| == |rows|
    decreases |rows|
  {
    if |rows| == 0 then [] else Verdicts(rows[..|rows| - 1]) + [ValidateRow(rows[|rows| - 1])]
  }

  /** The `i`-th verdict is the one `validate_row` gives the `i`-th row. */
  lemma {:induction false} VerdictAt(rows: seq<Row>, i: nat)
    requires i < |rows|
    ensures Verdicts(rows)[i] == ValidateRow(rows[i])
    decreases |rows|
  {
    var init := rows[..|rows| - 1];
    if i < |rows| - 1 {
      VerdictAt(init, i);
      assert init[i] == rows[i];
    }
  }

  /** A row whose verdict is an acceptance has its required fields filled. */
  lemma VerdictsAccepted(rows: seq<Row>)
    ensures forall j :: 0 <= j < |rows| && Verdicts(rows)[j].Accepted? ==> FieldsFilled(rows[j])
  {
    forall j | 0 <= j < |rows| && Verdicts(rows)[j].Accepted? ensures FieldsFilled(rows[j]) {
      VerdictAt(rows, j);
    }
  }

  /** Every entry of `errors` names a rejected row among the first `n`, with its question number and reason. */
  ghost predicate ErrorsSound(rows: seq<Row>, vs: seq<Verdict>, n: nat, errors: seq<RowError>)
    requires n <= |rows| == |vs|
  {
    forall k :: 0 <= k < |errors| ==>
      && 1 <= errors[k].row <= n
      && errors[k].questionNo == rows[errors[k].row - 1].questionNo
      && vs[errors[k].row - 1] == Rejected(errors[k].reason)
  }

  /** The entries of `errors` are in strictly increasing row order (so no row appears twice). */
  ghost predicate ErrorsOrdered(errors: seq<RowError>) {
    forall k, l :: 0 <= k < l < |errors| ==> errors[k].row < errors[l].row
  }

  /** Every rejected row among the first `n` has an entry in `errors`. */
  ghost predicate ErrorsComplete(vs: seq<Verdict>, n: nat, errors: seq<RowError>)
    requires n <= |vs|
  {
    forall j :: 0 <= j < n && vs[j].Rejected? ==> exists k :: 0 <= k < |errors| && errors[k].row == j + 1
  }

  /** `errors` lists, in row order, exactly one entry for each rejected row among the first `n`. */
  ghost predicate ReportsRejected(rows: seq<Row>, vs: seq<Verdict>, n: nat, errors: seq<RowError>)
    requires n <= |rows| == |vs|
  {
    ErrorsSound(rows, vs, n, errors) && ErrorsOrdered(errors) && ErrorsComplete(vs, n, errors)
  }

  /** The error entries for the rejected rows among the first `n`, in row order. */
  function ErrorsOf(rows: seq<Row>, vs: seq<Verdict>, n: nat): seq<RowError>
    requires n <= |rows| == |vs|
  {
    if n == 0 then []
    else
      var entry := if vs[n - 1].Rejected? then [RowError(n, rows[n - 1].questionNo, vs[n - 1].reason)] else [];
      ErrorsOf(rows, vs, n - 1) + entry
  }

  lemma {:induction false} ErrorsOfSound(rows: seq<Row>, vs: seq<Verdict>, n: nat)
    requires n <= |rows| == |vs|
    ensures ErrorsSound(rows, vs, n, ErrorsOf(rows, vs, n))
  {
    if n > 0 {
      ErrorsOfSound(rows, vs, n - 1);
      var prev := ErrorsOf(rows, vs, n - 1);
      var es := ErrorsOf(rows, vs, n);
      if vs[n - 1].Rejected? {
        var e := RowError(n, rows[n - 1].questionNo, vs[n - 1].reason);
        assert es == prev + [e];
        assert es[|prev|] == e;
      } else {
        assert es == prev;
      }
    }
  }

  lemma {:induction false} ErrorsOfOrdered(rows: seq<Row>, vs: seq<Verdict>, n: nat)
    requires n <= |rows| == |vs|
    ensures ErrorsOrdered(ErrorsOf(rows, vs, n))
    ensures forall k :: 0 <= k < |ErrorsOf(rows, vs, n)| ==> ErrorsOf(rows, vs, n)[k].row <= n
  {
    if n > 0 {
      ErrorsOfOrdered(rows, vs, n - 1);
    }
  }

  lemma {:induction false} ErrorsOfComplete(rows: seq<Row>, vs: seq<Verdict>, n: nat)
    requires n <= |rows| == |vs|
    ensures ErrorsComplete(vs, n, ErrorsOf(rows, vs, n))
  {
    if n > 0 {
      ErrorsOfComplete(rows, vs, n - 1);
      var prev := ErrorsOf(rows, vs, n - 1);
      var es := ErrorsOf(rows, vs, n);
      if vs[n - 1].Rejected? {
        var e := RowError(n, rows[n - 1].questionNo, vs[n - 1].reason);
        assert es == prev + [e];
        forall j | 0 <= j < n && vs[j].Rejected? ensures exists k :: 0 <= k < |es| && es[k].row == j + 1 {
          if j < n - 1 {
            var k :| 0 <= k < |prev| && prev[k].row == j + 1;
            assert es[k] == prev[k];
          } else {
            assert es[|prev|].row == j + 1;
          }
        }
      } else {
        assert es == prev;
      }
    }
  }

  lemma {:induction false} ErrorsOfEmpty(rows: seq<Row>, vs: seq<Verdict>, n: nat)
    requires n <= |rows| == |vs|
    ensures |ErrorsOf(rows, vs, n)| == 0 <==> forall j :: 0 <= j < n ==> !vs[j].Rejected?
  {
    if n > 0 {
      ErrorsOfEmpty(rows, vs, n - 1);
    }
  }

  /** The collected entries report every rejected row exactly once, in order, and nothing else. */
  lemma ErrorsOfReports(rows: seq<Row>, vs: seq<Verdict>, n: nat)
    requires n <= |rows| == |vs|
    ensures ReportsRejected(rows, vs, n, ErrorsOf(rows, vs, n))
    ensures |ErrorsOf(rows, vs, n)| == 0 <==> forall j :: 0 <= j < n ==> !vs[j].Rejected?
  {
    ErrorsOfSound(rows, vs, n);
    ErrorsOfOrdered(rows, vs, n);
    ErrorsOfComplete(rows, vs, n);
    ErrorsOfEmpty(rows, vs, n);
  }

  /** The sheets for the accepted rows among the first `n`, in row order. */
  function SheetsOf(rows: seq<Row>, vs: seq<Verdict>, n: nat): seq<Sheet>
    requires n <= |rows| == |vs|
    requires forall j :: 0 <= j < |rows| && vs[j].Accepted? ==> FieldsFilled(rows[j])
  {
    if n == 0 then []
    else
      var entry := if vs[n - 1].Accepted? then [SheetFrom(rows[n - 1], vs[n - 1])] else [];
      SheetsOf(rows, vs, n - 1) + entry
  }

  /** When every one of the first `n` rows is accepted, their sheets line up with the rows. */
  lemma {:induction false} SheetsOfAccepted(rows: seq<Row>, vs: seq<Verdict>, n: nat)
    requires n <= |rows| == |vs|
    requires forall j :: 0 <= j < |rows| && vs[j].Accepted? ==> FieldsFilled(rows[j])
    requires forall j :: 0 <= j < n ==> vs[j].Accepted?
    ensures |SheetsOf(rows, vs, n)| == n
    ensures forall j :: 0 <= j < n ==> SheetsOf(rows, vs, n)[j] == SheetFrom(rows[j], vs[j])
  {
    if n > 0 {
      SheetsOfAccepted(rows, vs, n - 1);
    }
  }

  /**
   * The loop of `save_answer_sheet_data`, given the verdict on each row:
   * collect one error per rejected row and one sheet per accepted row, and
   * stop at the first crash.
   */
  method CollectRows(rows: seq<Row>, vs: seq<Verdict>) returns (r: Result<seq<Sheet>, SaveError>)
    requires |vs| == |rows|
    requires forall j :: 0 <= j < |rows| && vs[j].Accepted? ==> FieldsFilled(rows[j])
    ensures r.Success? ==> |ErrorsOf(rows, vs, |rows|)| == 0 && r.value == SheetsOf(rows, vs, |rows|)
    ensures r.Failure? ==> r.error.RowErrors? || r.error.Unexpected?
    ensures !(r.Failure? && r.error.Unexpected?) ==> forall i :: 0 <= i < |rows| ==> !vs[i].Crashed?
    ensures r.Failure? && r.error.RowErrors? ==>
      |r.error.errors| > 0 && r.error.errors == ErrorsOf(rows, vs, |rows|)
    ensures r.Failure? && r.error.Unexpected? ==>
      && 1 <= r.error.row <= |rows|
      && vs[r.error.row - 1].Crashed?
      && forall i :: 0 <= i < r.error.row - 1 ==> !vs[i].Crashed?
  {
    var sheets: seq<Sheet> := [];
    var errors: seq<RowError> := [];
    var i := 0;
    while i < |rows|
      invariant 0 <= i <= |rows|
      invariant forall j :: 0 <= j < i ==> !vs[j].Crashed?
      invariant errors == ErrorsOf(rows, vs, i)
      invariant sheets == SheetsOf(rows, vs, i)
    {
      var v := vs[i];
      if v.Crashed? {
        return Failure(Unexpected(i + 1));
      } else if v.Rejected? {
        errors := errors + [RowError(i + 1, rows[i].questionNo, v.reason)];
      } else {
        sheets := sheets + [SheetFrom(rows[i], v)];
      }
      i := i + 1;
    }
    if |errors| > 0 {
      return Failure(RowErrors(errors));
    }
    return Success(sheets);
  }

  /**
   * How the validation loop over a batch with verdicts `vs` ends: the
   * sheets, one per row, handed on to `bulk_create` exactly when every row
   * is accepted; otherwise the first crash, if any row crashes, or else the
   * report of every rejected row.
   */
  ghost predicate SaveOutcome(rows: seq<Row>, vs: seq<Verdict>, r: Result<seq<Sheet>, SaveError>)
    requires |vs| == |rows|
  {
    && (r.Success? <==> forall i :: 0 <= i < |rows| ==> vs[i].Accepted?)
    && (r.Success? ==>
         && |r.value| == |rows|
         && forall i :: 0 <= i < |rows| ==>
              FieldsFilled(rows[i]) && r.value[i] == SheetFrom(rows[i], vs[i]))
    && (r.Failure? ==> r.error.RowErrors? || r.error.Unexpected?)
    && (r.Failure? && r.error.RowErrors? ==>
         && |r.error.errors| > 0
         && (forall i :: 0 <= i < |rows| ==> !vs[i].Crashed?)
         && ReportsRejected(rows, vs, |rows|, r.error.errors))
    && (r.Failure? && r.error.Unexpected? ==>
         && 1 <= r.error.row <= |rows|
         && vs[r.error.row - 1].Crashed?
         && forall i :: 0 <= i < r.error.row - 1 ==> !vs[i].Crashed?)
  }

  /** The loop's three ways of ending establish `SaveOutcome`. */
  lemma CollectOutcome(rows: seq<Row>, vs: seq<Verdict>, r: Result<seq<Sheet>, SaveError>)
    requires |vs| == |rows|
    requires forall j :: 0 <= j < |rows| && vs[j].Accepted? ==> FieldsFilled(rows[j])
    requires r.Success? ==> |ErrorsOf(rows, vs, |rows|)| == 0 && r.value == SheetsOf(rows, vs, |rows|)
    requires r.Failure? ==> r.error.RowErrors? || r.error.Unexpected?
    requires !(r.Failure? && r.error.Unexpected?) ==> forall i :: 0 <= i < |rows| ==> !vs[i].Crashed?
    requires r.Failure? && r.error.RowErrors? ==>
      |r.error.errors| > 0 && r.error.errors == ErrorsOf(rows, vs, |rows|)
    requires r.Failure? && r.error.Unexpected? ==>
      && 1 <= r.error.row <= |rows|
      && vs[r.error.row - 1].Crashed?
      && forall i :: 0 <= i < r.error.row - 1 ==> !vs[i].Crashed?
    ensures SaveOutcome(rows, vs, r)
  {
    ErrorsOfReports(rows, vs, |rows|);
    if r.Success? {
      forall i | 0 <= i < |rows| ensures vs[i].Accepted? {
        assert !vs[i].Crashed? && !vs[i].Rejected?;
      }
      SheetsOfAccepted(rows, vs, |rows|);
    } else if r.error.Unexpected? {
      assert !vs[r.error.row - 1].Accepted?;
    } else {
      assert !forall j :: 0 <= j < |rows| ==> !vs[j].Rejected?;
    }
  }

  /** A row whose two id fields are present and convert. */
  predicate RowIdsStorable(row: Row) {
    row.questionNo.Some? && row.questionId.Some? && ColumnId(row.questionNo.value).Some? && ColumnId(row.questionId.value).Some?
  }

  /**
   * How a batch with verdicts `vs` ends once `bulk_create` has run:
   * records are written, one per row, exactly when every row is accepted
   * and every id converts; a batch whose rows are all accepted but holds an
   * id that does not convert writes nothing; any other refusal is the loop's.
   */
  ghost predicate BatchOutcome(rows: seq<Row>, vs: seq<Verdict>, r: Result<seq<Record>, SaveError>)
    requires |vs| == |rows|
  {
    && (r.Success? <==>
         (forall i :: 0 <= i < |rows| ==> vs[i].Accepted?) && (forall i :: 0 <= i < |rows| ==> RowIdsStorable(rows[i])))
    && (r.Success? ==>
         && |r.value| == |rows|
         && forall i :: 0 <= i < |rows| ==>
              && RowIdsStorable(rows[i]) && vs[i].Accepted?
              && r.value[i].questionNo == ColumnId(rows[i].questionNo.value).value
              && r.value[i].questionId == ColumnId(rows[i].questionId.value).value
              && r.value[i].answer == vs[i].answer && r.value[i].mark == vs[i].mark
              && Some(r.value[i].qType) == rows[i].qType)
    && (r.Failure? && r.error.StoreFailed? ==>
         && (forall i :: 0 <= i < |rows| ==> vs[i].Accepted?)
         && exists i :: 0 <= i < |rows| && !RowIdsStorable(rows[i]))
    && (r.Failure? && !r.error.StoreFailed? ==> SaveOutcome(rows, vs, Failure(r.error)))
  }

  /**
   * `save_answer_sheet_data`: the slot must exist; then every row is
   * validated, the sheets are built only when no row was rejected, and
   * `bulk_create` writes them all or none, so a batch is stored whole or not
   * at all. `Verdicts(rows)[i]` is `ValidateRow(rows[i])` (lemma `VerdictAt`).
   */
  method SaveAnswerSheetData(rows: seq<Row>, slotFound: bool) returns (r: Result<seq<Record>, SaveError>)
    ensures !slotFound ==> r == Failure(SlotNotFound)
    ensures slotFound ==> BatchOutcome(rows, Verdicts(rows), r)
  {
    if !slotFound {
      r := Failure(SlotNotFound);
    } else {
      var vs := Verdicts(rows);
      VerdictsAccepted(rows);
      var loop := CollectRows(rows, vs);
      CollectOutcome(rows, vs, loop);
      if loop.Failure? {
        r := Failure(loop.error);
        AcceptedLoopSucceeds(rows, vs, loop);
      } else {
        var stored := StoreSheets(loop.value);
        StoredRows(rows, vs, loop.value, stored);
        if stored.None? {
          r := Failure(StoreFailed);
        } else {
          r := Success(stored.value);
        }
      }
    }
  }

  /** A loop that refused the batch leaves some row unaccepted. */
  lemma AcceptedLoopSucceeds(rows: seq<Row>, vs: seq<Verdict>, loop: Result<seq<Sheet>, SaveError>)
    requires |vs| == |rows| && SaveOutcome(rows, vs, loop) && loop.Failure?
    ensures !forall i :: 0 <= i < |rows| ==> vs[i].Accepted?
  {
  }

  /** Storing the sheets of a fully accepted batch converts exactly the rows' ids. */
  lemma StoredRows(rows: seq<Row>, vs: seq<Verdict>, sheets: seq<Sheet>, stored: Option<seq<Record>>)
    requires |vs| == |rows| && SaveOutcome(rows, vs, Success(sheets)) && stored == StoreSheets(sheets)
    ensures forall i :: 0 <= i < |rows| ==> vs[i].Accepted? && FieldsFilled(rows[i])
    ensures stored.Some? <==> forall i :: 0 <= i < |rows| ==> RowIdsStorable(rows[i])
    ensures stored.Some? ==> |stored.value| == |rows|
    ensures stored.Some? ==> forall i :: 0 <= i < |rows| ==> stored.value[i] == RecordOf(SheetFrom(rows[i], vs[i]))
  {
    assert forall i :: 0 <= i < |rows| ==> sheets[i] == SheetFrom(rows[i], vs[i]);
    assert forall i :: 0 <= i < |rows| ==> (IdsStorable(sheets[i]) <==> RowIdsStorable(rows[i]));
  }
}

/**
 * The answer key from both ends: what a row accepted by `validate_row`
 * becomes once `predictRank` reads the stored sheet back into its
 * `answer_key` (the answer stripped, the mark and the type kept), and how the
 * scorer then judges answers against it.
 */
module KeyRoundTrip {
  import opened Base
  import opened PyText
  import opened PyNumber
  import opened AnswerKey
  import opened Scoring

  /**
   * The `answer_key` entry `predictRank` builds from a stored sheet. The
   * `answer` column is `NOT NULL`, so a stored sheet always has an answer.
   */
  function KeyOf(s: Sheet, questionNo: Option<nat>): KeyValue
    requires s.answer.Some?
  {
    KeyValue(Strip(s.answer.value), s.mark, s.qType, questionNo)
  }

  /** The sheet created for an accepted row, with its stored answer present. */
  predicate Stored(row: Row) {
    && ValidateRow(row).Accepted?
    && ValidateRow(row).answer.Some?
  }

  /** The key entry read back from an accepted row's sheet. */
  function RowKey(row: Row, questionNo: Option<nat>): KeyValue
    requires Stored(row)
  {
    KeyOf(SheetFrom(row, ValidateRow(row)), questionNo)
  }

  /** The `AnswerSheet` record as `predictRank` reads it: a key entry under the converted question id. */
  function EntryOf(rec: Record): KeyEntry
    requires rec.answer.Some?
  {
    KeyEntry(rec.questionId, Some(rec.questionNo), rec.answer.value, rec.qType, rec.mark)
  }

  /**
   * The record stored for an accepted row is found in the answer key under
   * the integer `int` reads from the row's `question_Id` text, with the
   * key value read back from the row.
   */
  lemma RecordKey(row: Row)
    requires Stored(row) && RowIdsStorable(row)
    ensures var e := EntryOf(RecordOf(SheetFrom(row, ValidateRow(row))));
      && ParseInt(row.questionId.value) == Some(e.questionId as int)
      && ParseInt(row.questionNo.value) == Some(e.questionNo.value as int)
      && ValueOf(e) == RowKey(row, e.questionNo)
  {
  }

  /** An accepted row's verdict is the type's answer rule applied to the row's answer and its mark. */
  lemma AcceptedByRule(row: Row, t: QType)
    requires ValidateRow(row).Accepted?
    requires TypeOf(row.qType.value) == Some(t)
    ensures ValidateRow(row) == CheckAnswer(t, row.answer, ValidateRow(row).mark)
  {
  }

  /* ---------------- what each type stores ---------------- */

  /** An accepted MCQ row stores one letter, which reads back unchanged. */
  lemma McqStored(row: Row, q: Option<nat>)
    requires Stored(row) && row.qType == Some("MCQ")
    ensures IsLetter(ValidateRow(row).answer.value)
    ensures RowKey(row, q).answer == ValidateRow(row).answer.value
  {
    AcceptedByRule(row, MCQ);
    var a := ValidateRow(row).answer.value;
    TrimKeeps(a, IsSpace);
  }

  /** An accepted MSQ row stores its letters joined by commas, which read back unchanged. */
  lemma MsqStored(row: Row, q: Option<nat>)
    requires Stored(row) && row.qType == Some("MSQ")
    ensures row.answer.Some?
    ensures var opts := Options(row.answer.value);
      && (forall k :: 0 <= k < |opts| ==> IsLetter(opts[k]))
      && ValidateRow(row).answer.value == Join(opts, ",")
      && RowKey(row, q).answer == Join(opts, ",")
  {
    AcceptedByRule(row, MSQ);
    LettersStripped(Options(row.answer.value));
  }

  /** Letters joined by commas have a letter at both ends, so stripping keeps them. */
  lemma LettersStripped(opts: seq<string>)
    requires |opts| > 0 && forall k :: 0 <= k < |opts| ==> IsLetter(opts[k])
    ensures Strip(Join(opts, ",")) == Join(opts, ",")
  {
    var a := Join(opts, ",");
    LettersEnds(opts);
    var first, last := a[0], a[|a| - 1];
    AlphaNotSpace(first);
    AlphaNotSpace(last);
    StripKeeps(a);
  }

  lemma LettersEnds(opts: seq<string>)
    requires |opts| > 0 && forall k :: 0 <= k < |opts| ==> IsLetter(opts[k])
    ensures var a := Join(opts, ",");
      |a| > 0 && IsAlpha(a[0]) && IsAlpha(a[|a| - 1])
  {
    JoinEnds(opts, ",");
    var first, last := opts[0], opts[|opts| - 1];
    assert IsLetter(first) && IsLetter(last);
  }

  /** What an accepted MTA-typed row stores is empty or a number, so it never reads back as the sentinel. */
  lemma MtaStored(row: Row, q: Option<nat>)
    requires Stored(row) && row.qType == Some("MTA")
    ensures var a := Strip(ValidateRow(row).answer.value);
      a == "" || forall i :: 0 <= i < |a| ==> IsNumeralChar(a[i])
    ensures RowKey(row, q).answer != "MTA"
  {
    AcceptedAnswer(row);
    var a := ValidateRow(row).answer.value;
    assert a == row.answer.value;
    assert a == "" || ParseReal(a).Some?;
    assert Strip("") == "";
    assert !IsNumeralChar("MTA"[0]);
  }

  /** The MSQ answers stored are never the sentinel: a single letter is too short, and two or more have a comma second. */
  lemma LettersNotSentinel(opts: seq<string>)
    requires |opts| > 0 && forall k :: 0 <= k < |opts| ==> IsLetter(opts[k])
    ensures Join(opts, ",") != "MTA"
  {
    var a := Join(opts, ",");
    if |opts| == 1 {
      assert |a| == 1;
    } else {
      assert a == opts[0] + "," + Join(opts[1..], ",");
      assert a[1] == ',';
    }
  }

  /* ---------------- judging against the stored key ---------------- */

  /**
   * An MCQ key read back from its row judges an answer correct exactly when
   * it is the stored letter in either case; any other answer, longer ones
   * included, costs a third of the mark.
   */
  lemma McqRoundTrip(row: Row, q: Option<nat>, cand: string)
    requires Stored(row) && row.qType == Some("MCQ")
    ensures Judge(RowKey(row, q), cand).isCorrect
      <==> |cand| == 1 && LowerChar(cand[0]) == LowerChar(ValidateRow(row).answer.value[0])
    ensures Judge(RowKey(row, q), cand).awarded
      == if Judge(RowKey(row, q), cand).isCorrect then ValidateRow(row).mark else -(ValidateRow(row).mark / 3.0)
  {
    var a, m := McqKeyOf(row, q);
    McqKey(RowKey(row, q), a, cand);
  }

  /** The key an accepted MCQ row reads back as: its letter, its mark, the type MCQ. */
  lemma McqKeyOf(row: Row, q: Option<nat>) returns (a: string, m: real)
    requires Stored(row) && row.qType == Some("MCQ")
    ensures a == ValidateRow(row).answer.value && m == ValidateRow(row).mark
    ensures IsLetter(a) && RowKey(row, q) == KeyValue(a, m, "MCQ", q)
  {
    McqStored(row, q);
    a, m := ValidateRow(row).answer.value, ValidateRow(row).mark;
  }

  /** The judgement against an MCQ key holding one letter. */
  lemma McqKey(k: KeyValue, a: string, cand: string)
    requires k.qType == "MCQ" && k.answer == a && IsLetter(a)
    ensures Judge(k, cand).isCorrect <==> |cand| == 1 && LowerChar(cand[0]) == LowerChar(a[0])
    ensures Judge(k, cand).awarded == if Judge(k, cand).isCorrect then k.mark else -(k.mark / 3.0)
  {
    assert |k.answer| != |"MTA"|;
    JudgeMcq(k, cand);
  }

  /**
   * An MSQ key read back from its row judges a comma-separated answer
   * correct exactly when it names the same options as the uploaded answer,
   * ignoring case, order and repetition.
   */
  lemma MsqRoundTrip(row: Row, q: Option<nat>, picks: seq<string>)
    requires Stored(row) && row.qType == Some("MSQ")
    requires |picks| > 0 && forall k :: 0 <= k < |picks| ==> ' ' !in picks[k] && ',' !in picks[k]
    ensures row.answer.Some?
    ensures var opts := Options(row.answer.value);
      (Judge(RowKey(row, q), Join(picks, ",")).isCorrect)
        <==> ((set p | p in picks :: Lower(p)) == (set p | p in opts :: Lower(p)))
  {
    MsqStored(row, q);
    MsqKey(RowKey(row, q), Options(row.answer.value), picks);
  }

  /** The judgement against an MSQ key holding letters joined by commas. */
  lemma MsqKey(k: KeyValue, opts: seq<string>, picks: seq<string>)
    requires k.qType == "MSQ"
    requires |opts| > 0 && forall i :: 0 <= i < |opts| ==> IsLetter(opts[i])
    requires k.answer == Join(opts, ",")
    requires |picks| > 0 && forall i :: 0 <= i < |picks| ==> ' ' !in picks[i] && ',' !in picks[i]
    ensures (Judge(k, Join(picks, ",")).isCorrect)
        <==> ((set p | p in picks :: Lower(p)) == (set p | p in opts :: Lower(p)))
  {
    LettersNotSentinel(opts);
    JudgeMsq(k, Join(picks, ","));
    assert forall i :: 0 <= i < |opts| ==> opts[i] == [opts[i][0]];
    OptionSetOfJoin(opts);
    OptionSetOfJoin(picks);
  }

  /**
   * A row typed MTA is not the "marks to all" case: its key is never the
   * sentinel and MTA is none of the compared types, so every answer is
   * judged wrong and earns nothing.
   */
  lemma MtaTypeEarnsNothing(row: Row, q: Option<nat>, cand: string)
    requires Stored(row) && row.qType == Some("MTA")
    ensures Judge(RowKey(row, q), cand) == Judgement(false, 0.0)
  {
    MtaStored(row, q);
    JudgeOtherType(RowKey(row, q), cand);
  }

  /** Only a NAT row can store the sentinel: MCQ, MSQ and MTA rows never read back as `MTA`. */
  lemma SentinelOnlyFromNat(row: Row, q: Option<nat>)
    requires Stored(row) && RowKey(row, q).answer == "MTA"
    ensures row.qType == Some("NAT")
  {
    var t := TypeOf(row.qType.value).value;
    match t
    case MCQ => McqStored(row, q);
    case MSQ =>
      MsqStored(row, q);
      LettersNotSentinel(Options(row.answer.value));
    case NAT =>
    case MTA => MtaStored(row, q);
  }

  /* ---------------- NAT groups ---------------- */

  /** A leading parenthesised group without `)` or a newline is the first group found. */
  lemma GroupsCons(g: string, rest: string)
    requires ')' !in g && '\n' !in g
    ensures Groups("(" + g + ")" + rest) == [g] + Groups(rest)
  {
    var s := "(" + g + ")" + rest;
    var t := s[1..];
    assert t == g + ")" + rest;
    assert t[|g|] == ')';
    assert forall k :: 0 <= k < |g| ==> t[k] == g[k];
    assert CloseAt(t) == Some(|g|);
    assert s[1..1 + |g|] == g;
    assert s[|g| + 2..] == rest;
  }

  /** A NAT answer of one group stores that group with `-` spelled ` to `. */
  lemma NatSingleGroup(row: Row, g: string)
    requires Stored(row) && row.qType == Some("NAT")
    requires row.answer == Some("(" + g + ")") && ')' !in g && '\n' !in g
    ensures ValidateRow(row).answer == Some(RangeText(g))
  {
    AcceptedByRule(row, NAT);
    GroupsCons(g, "");
    assert "(" + g + ")" + "" == "(" + g + ")";
    assert Groups("") == [];
  }

  /** The NAT answer `(MTA)` stores the sentinel, and the question is then full marks for every answer. */
  lemma NatSentinelFullMarks(row: Row, g: string, q: Option<nat>, cand: string)
    requires Stored(row) && row.qType == Some("NAT")
    requires g == "MTA" && row.answer == Some("(" + g + ")")
    ensures RowKey(row, q).answer == "MTA"
    ensures Judge(RowKey(row, q), cand) == Judgement(true, ValidateRow(row).mark)
  {
    NatSingleGroup(row, g);
    SentinelText(g);
    JudgeSentinel(RowKey(row, q), cand);
  }

  /** The group `MTA` holds no `-` and no surrounding space, so it is stored and read back as itself. */
  lemma SentinelText(g: string)
    requires g == "MTA"
    ensures Strip(RangeText(g)) == "MTA"
  {
    assert '-' !in g;
    assert RangeText(g) == g;
    TrimKeeps(g, IsSpace);
  }

  /** A NAT answer holding no parenthesised group stores the empty text. */
  lemma NatWithoutGroups(row: Row)
    requires Stored(row) && row.qType == Some("NAT")
    requires '(' !in row.answer.value
    ensures ValidateRow(row).answer == Some("")
  {
    AcceptedByRule(row, NAT);
    NoGroups(row.answer.value);
  }

  lemma {:induction false} NoGroups(s: string)
    requires '(' !in s
    ensures Groups(s) == []
    decreases |s|
  {
    if |s| > 0 {
      assert s[0] != '(';
      assert forall c :: c in s[1..] ==> c in s;
      NoGroups(s[1..]);
    }
  }

  /** Text between groups that holds no `(` is skipped. */
  lemma GroupsSkip(c: char, rest: string)
    requires c != '('
    ensures Groups([c] + rest) == Groups(rest)
  {
    assert ([c] + rest)[1..] == rest;
  }

  /** A NAT key written as parenthesised groups separated by single spaces: `(3.99) (2-4) (5-6)`. */
  function Bracketed(gs: seq<string>): string
    decreases |gs|
  {
    if |gs| == 0 then ""
    else if |gs| == 1 then "(" + gs[0] + ")"
    else "(" + gs[0] + ") " + Bracketed(gs[1..])
  }

  /** Groups without `)` or a newline are found again, in order, in their bracketed text. */
  lemma {:induction false} GroupsOfBracketed(gs: seq<string>)
    requires forall k :: 0 <= k < |gs| ==> ')' !in gs[k] && '\n' !in gs[k]
    ensures Groups(Bracketed(gs)) == gs
    decreases |gs|
  {
    if |gs| == 1 {
      GroupsCons(gs[0], "");
      assert Bracketed(gs) == "(" + gs[0] + ")" + "";
      assert Groups("") == [];
    } else if |gs| > 1 {
      var rest := Bracketed(gs[1..]);
      assert Bracketed(gs) == "(" + gs[0] + ")" + ([' '] + rest);
      GroupsCons(gs[0], [' '] + rest);
      GroupsSkip(' ', rest);
      GroupsOfBracketed(gs[1..]);
      assert gs == [gs[0]] + gs[1..];
    }
  }

  /**
   * The NAT rule on a bracketed key: each group, with `-` spelled ` to `, joined
   * by ` OR ` — `(3.99) (2-4) (5-6)` is stored as `3.99 OR 2 to 4 OR 5 to 6`.
   */
  lemma NatOfBracketed(gs: seq<string>)
    requires forall k :: 0 <= k < |gs| ==> ')' !in gs[k] && '\n' !in gs[k]
    ensures NatCanonical(Bracketed(gs)) == Join(seq(|gs|, i requires 0 <= i < |gs| => RangeText(gs[i])), " OR ")
  {
    GroupsOfBracketed(gs);
  }

  /** The key written in the loader's documentation: `(3.99) (2-4) (5-6)` is stored as `3.99 OR 2 to 4 OR 5 to 6`. */
  lemma NatDocumentedKey(s: string)
    requires s == "(3.99) (2-4) (5-6)"
    ensures NatCanonical(s) == "3.99 OR 2 to 4 OR 5 to 6"
  {
    var p, l1, h1, l2, h2 := "3.99", "2", "4", "5", "6";
    DocumentedPieces(s, p, l1, h1, l2, h2);
    NatPointAndPairs(p, l1, h1, l2, h2);
    DocumentedText(p, l1 + " to " + h1, l2 + " to " + h2);
  }

  /** The documented key and its pieces, none holding `)`, a newline or `-`. */
  lemma DocumentedPieces(s: string, p: string, l1: string, h1: string, l2: string, h2: string)
    requires s == "(3.99) (2-4) (5-6)" && p == "3.99" && l1 == "2" && h1 == "4" && l2 == "5" && h2 == "6"
    ensures s == "(" + p + ") (" + (l1 + "-" + h1) + ") (" + (l2 + "-" + h2) + ")"
    ensures forall x :: x in [p, l1, h1, l2, h2] ==> ')' !in x && '\n' !in x && '-' !in x
  {
  }

  lemma DocumentedText(p: string, r1: string, r2: string)
    requires p == "3.99" && r1 == "2" + " to " + "4" && r2 == "5" + " to " + "6"
    ensures p + " OR " + r1 + " OR " + r2 == "3.99 OR 2 to 4 OR 5 to 6"
  {
  }

  /** A point group followed by two `l-h` groups is stored as the point and the two intervals, joined by ` OR `. */
  lemma NatPointAndPairs(p: string, l1: string, h1: string, l2: string, h2: string)
    requires forall x :: x in [p, l1, h1, l2, h2] ==> ')' !in x && '\n' !in x && '-' !in x
    ensures NatCanonical("(" + p + ") (" + (l1 + "-" + h1) + ") (" + (l2 + "-" + h2) + ")")
      == p + " OR " + (l1 + " to " + h1) + " OR " + (l2 + " to " + h2)
  {
    assert p in [p, l1, h1, l2, h2] && l1 in [p, l1, h1, l2, h2] && h1 in [p, l1, h1, l2, h2];
    assert l2 in [p, l1, h1, l2, h2] && h2 in [p, l1, h1, l2, h2];
    var g1, g2 := l1 + "-" + h1, l2 + "-" + h2;
    assert forall c :: c in g1 ==> c in l1 || c == '-' || c in h1;
    assert forall c :: c in g2 ==> c in l2 || c == '-' || c in h2;
    var ps := ThreeGroups(p, g1, g2);
    RangeOfPair(g1, l1, h1);
    RangeOfPair(g2, l2, h2);
    assert RangeText(p) == p;
    JoinThree(p, l1 + " to " + h1, l2 + " to " + h2, " OR ");
  }

  /** Three bracketed groups are stored as their three rewritten forms, in order. */
  lemma ThreeGroups(a: string, b: string, c: string) returns (ps: seq<string>)
    requires ')' !in a && '\n' !in a && ')' !in b && '\n' !in b && ')' !in c && '\n' !in c
    ensures ps == [a, b, c]
    ensures NatCanonical("(" + a + ") (" + b + ") (" + c + ")") == Join([RangeText(a), RangeText(b), RangeText(c)], " OR ")
  {
    ps := [a, b, c];
    assert ps[1..][1..] == [c];
    assert Bracketed(ps[1..]) == "(" + b + ") " + "(" + c + ")";
    assert Bracketed(ps) == "(" + a + ") (" + b + ") (" + c + ")";
    NatOfBracketed(ps);
    assert seq(|ps|, i requires 0 <= i < |ps| => RangeText(ps[i])) == [RangeText(a), RangeText(b), RangeText(c)];
  }

  lemma JoinThree(a: string, b: string, c: string, sep: string)
    ensures Join([a, b, c], sep) == a + sep + b + sep + c
  {
    assert [a, b, c][1..] == [b, c];
    assert [b, c][1..] == [c];
    assert Join([c], sep) == c;
    assert Join([b, c], sep) == b + sep + c;
    assert Join([a, b, c], sep) == a + sep + (b + sep + c);
  }

  /** A group `l-h` is stored as `l to h`. */
  lemma RangeOfPair(g: string, l: string, h: string)
    requires g == l + ['-'] + h && '-' !in l && '-' !in h
    ensures RangeText(g) == l + " to " + h
  {
    ReplaceAtFirst(l, '-', h, " to ");
  }
}

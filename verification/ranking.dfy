/**
 * Rank lookup and within-bucket ranking. A raw total is looked up in the
 * department's marks→rank table (rows tried in order, first match wins),
 * giving a rank bucket such as `100-150`; every stored score in that bucket
 * is then renumbered with consecutive integers from the bucket's lower bound,
 * best normalized mark first.
 */
module Ranking {
  import opened Base
  import opened PyText
  import opened PyNumber

  /* ---------------- the marks→rank table ---------------- */

  /** One row of the table: its `Marks` range text and, per branch column, the rank bucket (null where there is none). */
  datatype TableRow = TableRow(marks: string, ranks: map<string, Option<string>>)

  /** A parsed `Marks` cell: `l+` or `l-u`. */
  datatype Range = AtLeast(lo: int) | Between(lo: int, hi: int)

  /**
   * A cell with a `+` is `int` of the text with the `+` removed; any other is
   * split on `-` after removing spaces and must give exactly two integers.
   * `None` where the source raises `ValueError`.
   */
  function ParseRange(text: string): (r: Option<Range>)
    ensures r.Some? && r.value.AtLeast? <==> Contains(text, "+") && ParseInt(RemoveChar(text, '+')).Some?
    ensures r.Some? && r.value.AtLeast? ==> ParseInt(RemoveChar(text, '+')) == Some(r.value.lo)
    ensures r.Some? && r.value.Between? ==> !Contains(text, "+")
    ensures r.Some? && r.value.Between? ==>
      var parts := Split(RemoveChar(text, ' '), "-");
      |parts| == 2 && ParseInt(parts[0]) == Some(r.value.lo) && ParseInt(parts[1]) == Some(r.value.hi)
  {
    if Contains(text, "+") then
      match ParseInt(RemoveChar(text, '+'))
      case None => None
      case Some(lo) => Some(AtLeast(lo))
    else
      var parts := Split(RemoveChar(text, ' '), "-");
      if |parts| == 2 && ParseInt(parts[0]).Some? && ParseInt(parts[1]).Some? then
        Some(Between(ParseInt(parts[0]).value, ParseInt(parts[1]).value))
      else None
  }

  /** `str(l) + "+"` reads back as the open range from `l`. */
  lemma ParseRangeOpen(l: nat)
    ensures ParseRange(DecimalText(l) + "+") == Some(AtLeast(l))
  {
    var t := DecimalText(l);
    var text := t + "+";
    FindChar(text, '+');
    assert text[|t|] == '+';
    DigitsLack(t, '+');
    ReplaceAppend(t, "+", '+', "");
    assert Replace("+", '+', "") == "" + Replace("", '+', "");
    assert RemoveChar(text, '+') == t;
    ParseIntText(l);
  }

  /** `str(l) + "-" + str(u)` reads back as the closed range from `l` to `u`. */
  lemma ParseRangeClosed(l: nat, u: nat)
    ensures ParseRange(DecimalText(l) + "-" + DecimalText(u)) == Some(Between(l, u))
  {
    var a, b := DecimalText(l), DecimalText(u);
    ClosedText(a, b);
    ParseIntText(l);
    ParseIntText(u);
  }

  /** A digit run holds no character that is not a digit. */
  lemma DigitsLack(t: string, c: char)
    requires AllDigits(t) && !IsDigit(c)
    ensures c !in t
  {
  }

  /** Two digit runs around a `-`: no `+` and no space, and splitting on `-` gives the runs back. */
  lemma ClosedText(a: string, b: string)
    requires AllDigits(a) && AllDigits(b)
    ensures !Contains(a + "-" + b, "+")
    ensures RemoveChar(a + "-" + b, ' ') == a + "-" + b
    ensures Split(a + "-" + b, "-") == [a, b]
  {
    var text := a + "-" + b;
    DigitsLack(a, '+');
    DigitsLack(b, '+');
    DigitsLack(a, ' ');
    DigitsLack(b, ' ');
    DigitsLack(a, '-');
    DigitsLack(b, '-');
    assert forall c :: c in text ==> c in a || c == '-' || c in b;
    FindChar(text, '+');
    SplitFirst(a, "-", b);
    FindAbsent(b, "-");
  }

  /** Whether a range holds the marks: `l+` from `l` up, `l-u` inclusive at both ends. */
  predicate Holds(rg: Range, marks: real) {
    match rg
    case AtLeast(lo) => marks >= lo as real
    case Between(lo, hi) => lo as real <= marks <= hi as real
  }

  /** What `get_candidate_rank` returns. */
  datatype RankLookup =
    | BranchNotFound
    | Bucket(rank: Option<string>)
    | LowMarks
    | OutOfRange
    | BadRange(row: nat)
    | MissingColumn(row: nat)

  /** `BRANCH_MAPPING.get(branch)`, where an absent or empty column name means the branch is unknown. */
  function BranchColumn(mapping: map<string, string>, branch: string): (c: Option<string>)
    ensures c.Some? <==> branch in mapping && mapping[branch] != ""
    ensures c.Some? ==> c.value == mapping[branch]
  {
    if branch in mapping && mapping[branch] != "" then Some(mapping[branch]) else None
  }

  /** What a matching row returns: a null entry of a closed range means the marks are too low to rank. */
  function MatchAnswer(rg: Range, cell: Option<string>): (r: RankLookup)
    ensures r.Bucket? || r.LowMarks?
    ensures r.LowMarks? <==> rg.Between? && cell.None?
    ensures r.Bucket? ==> r.rank == cell
  {
    if rg.Between? && cell.None? then LowMarks else Bucket(cell)
  }

  /**
   * `row[branch_column]` on a row whose range holds the marks: its answer,
   * or the `KeyError` pandas raises when the row has no such column.
   */
  function RowAnswer(row: TableRow, k: nat, rg: Range, column: string): (r: RankLookup)
    ensures r.MissingColumn? <==> column !in row.ranks
    ensures r.MissingColumn? ==> r.row == k
    ensures !r.MissingColumn? ==> r == MatchAnswer(rg, row.ranks[column])
  {
    if column in row.ranks then MatchAnswer(rg, row.ranks[column]) else MissingColumn(k)
  }

  /** The loop over the table from row `i` on. */
  function LookupFrom(table: seq<TableRow>, i: nat, column: string, marks: real): (r: RankLookup)
    requires i <= |table|
    ensures !r.BranchNotFound?
    ensures r.BadRange? ==> i <= r.row < |table| && ParseRange(table[r.row].marks).None?
    ensures r.MissingColumn? ==> i <= r.row < |table| && column !in table[r.row].ranks
    decreases |table| - i
  {
    if i == |table| then OutOfRange
    else match ParseRange(table[i].marks)
      case None => BadRange(i)
      case Some(rg) =>
        if Holds(rg, marks) then RowAnswer(table[i], i, rg, column)
        else LookupFrom(table, i + 1, column, marks)
  }

  /** `get_candidate_rank(marks, branch)`. */
  function CandidateRank(marks: real, branch: string, mapping: map<string, string>, table: seq<TableRow>): RankLookup {
    match BranchColumn(mapping, branch)
    case None => BranchNotFound
    case Some(column) => LookupFrom(table, 0, column, marks)
  }

  /** A row the loop moves past: its range parses and does not hold the marks. */
  predicate Passes(row: TableRow, marks: real) {
    ParseRange(row.marks).Some? && !Holds(ParseRange(row.marks).value, marks)
  }

  predicate PassedBetween(table: seq<TableRow>, marks: real, i: nat, k: nat)
    requires i <= k <= |table|
  {
    forall j :: i <= j < k ==> Passes(table[j], marks)
  }

  /**
   * What a row the loop stops at returns: `ValueError` if it does not parse;
   * if it holds the marks, its answer, or `KeyError` without the column.
   */
  predicate StopsWith(row: TableRow, k: nat, column: string, marks: real, r: RankLookup) {
    match ParseRange(row.marks)
    case None => r == BadRange(k)
    case Some(rg) => Holds(rg, marks) ==> r == RowAnswer(row, k, rg, column)
  }

  lemma {:induction false} LookupFromSpec(table: seq<TableRow>, i: nat, column: string, marks: real)
    requires i <= |table|
    ensures var r := LookupFrom(table, i, column, marks);
      && (r == OutOfRange <==> PassedBetween(table, marks, i, |table|))
      && (forall k :: i <= k < |table| && PassedBetween(table, marks, i, k) ==> StopsWith(table[k], k, column, marks, r))
    decreases |table| - i
  {
    if i < |table| {
      LookupFromSpec(table, i + 1, column, marks);
      var r := LookupFrom(table, i, column, marks);
      if Passes(table[i], marks) {
        forall k | i <= k < |table| && PassedBetween(table, marks, i, k)
          ensures StopsWith(table[k], k, column, marks, r)
        {
          if k > i {
            assert PassedBetween(table, marks, i + 1, k);
          }
        }
      } else {
        assert !PassedBetween(table, marks, i, |table|);
        assert forall k :: i < k <= |table| ==> !PassedBetween(table, marks, i, k);
        forall k | i <= k < |table| && PassedBetween(table, marks, i, k)
          ensures StopsWith(table[k], k, column, marks, r)
        {
          assert k == i;
        }
      }
    }
  }

  /**
   * `get_candidate_rank`: "Branch not found" exactly for an unknown branch;
   * otherwise the first row that does not let the marks pass decides:
   * a range that raises, or a range holding the marks; "Marks out of range"
   * exactly when every row parses and none holds them.
   */
  lemma CandidateRankSpec(marks: real, branch: string, mapping: map<string, string>, table: seq<TableRow>)
    ensures var r := CandidateRank(marks, branch, mapping, table);
      && (r == BranchNotFound <==> BranchColumn(mapping, branch).None?)
      && (BranchColumn(mapping, branch).Some? ==>
        && (r == OutOfRange <==> PassedBetween(table, marks, 0, |table|))
        && forall k :: 0 <= k < |table| && PassedBetween(table, marks, 0, k) ==>
             StopsWith(table[k], k, BranchColumn(mapping, branch).value, marks, r))
  {
    if BranchColumn(mapping, branch).Some? {
      LookupFromSpec(table, 0, BranchColumn(mapping, branch).value, marks);
    }
  }

  /* ---------------- within-bucket ranking ---------------- */

  /** The fields of a stored `CandidateScore` the renumbering reads and writes. */
  datatype ScoreRow = ScoreRow(rank: Option<string>, normalizedMarks: real, normalizedRank: Option<int>)

  /** `int(bucket.replace(" ", "").split('-')[0])`: the bucket's lower bound, `None` where `int` raises. */
  function BucketLower(bucket: string): Option<int> {
    ParseInt(Split(RemoveChar(bucket, ' '), "-")[0])
  }

  /** The positions of the rows in the bucket among the first `n`, in storage order. */
  function Members(t: seq<ScoreRow>, b: string, n: nat): (ms: seq<nat>)
    requires n <= |t|
    ensures forall x :: x in ms <==> 0 <= x < n && t[x].rank == Some(b)
    ensures forall k :: 0 <= k < |ms| ==> ms[k] < n
    ensures forall p, q :: 0 <= p < q < |ms| ==> ms[p] < ms[q]
    ensures |ms| <= n
    decreases n
  {
    if n == 0 then []
    else
      var prev := Members(t, b, n - 1);
      assert forall p :: 0 <= p < |prev| ==> prev[p] in prev && prev[p] < n - 1;
      prev + (if t[n - 1].rank == Some(b) then [n - 1] else [])
  }

  /**
   * `order_by("-normalized_marks")`: row `i` comes before row `j` when its
   * normalized mark is higher, ties kept in storage order.
   */
  predicate Precedes(t: seq<ScoreRow>, i: nat, j: nat) {
    i < |t| && j < |t| &&
    (t[i].normalizedMarks > t[j].normalizedMarks || (t[i].normalizedMarks == t[j].normalizedMarks && i < j))
  }

  /** Every earlier position precedes every later one. */
  predicate Sorted(t: seq<ScoreRow>, o: seq<nat>) {
    (forall k :: 0 <= k < |o| ==> o[k] < |t|)
    && forall p, q :: 0 <= p < q < |o| ==> Precedes(t, o[p], o[q])
  }

  /** A row that precedes `x` and every row of `o` precedes every row of a rearrangement of `o` with `x` added. */
  lemma PrecedesAll(t: seq<ScoreRow>, h: nat, x: nat, o: seq<nat>, r: seq<nat>)
    requires Precedes(t, h, x) && forall k :: 0 <= k < |o| ==> Precedes(t, h, o[k])
    requires multiset(r) == multiset(o) + multiset{x}
    ensures forall k :: 0 <= k < |r| ==> Precedes(t, h, r[k])
  {
    forall k | 0 <= k < |r| ensures Precedes(t, h, r[k]) {
      assert r[k] in multiset(r);
      if r[k] != x {
        assert r[k] in o;
      }
    }
  }

  lemma PrecedesTransitive(t: seq<ScoreRow>, i: nat, j: nat, k: nat)
    requires Precedes(t, i, j) && (j == k || Precedes(t, j, k))
    ensures Precedes(t, i, k)
  {
  }

  /** A row that precedes every row of a sorted order can go in front of it. */
  lemma SortedCons(t: seq<ScoreRow>, h: nat, o: seq<nat>)
    requires h < |t| && Sorted(t, o) && forall k :: 0 <= k < |o| ==> Precedes(t, h, o[k])
    ensures Sorted(t, [h] + o)
  {
    var r := [h] + o;
    forall p, q | 0 <= p < q < |r| ensures Precedes(t, r[p], r[q]) {
      assert r[q] == o[q - 1];
      if p > 0 {
        assert r[p] == o[p - 1];
      }
    }
  }

  /** Puts `x` in front of the first row of `o` it precedes. */
  function Insert(t: seq<ScoreRow>, x: nat, o: seq<nat>): (r: seq<nat>)
    ensures multiset(r) == multiset(o) + multiset{x}
    decreases |o|
  {
    if |o| == 0 then [x]
    else if Precedes(t, x, o[0]) then [x] + o
    else
      assert o == [o[0]] + o[1..];
      [o[0]] + Insert(t, x, o[1..])
  }

  /** Inserting a new row into a sorted order keeps it sorted. */
  lemma {:induction false} InsertSorted(t: seq<ScoreRow>, x: nat, o: seq<nat>)
    requires x < |t| && Sorted(t, o) && x !in o
    ensures Sorted(t, Insert(t, x, o))
    decreases |o|
  {
    if |o| == 0 {
      assert Insert(t, x, o) == [x];
    } else if Precedes(t, x, o[0]) {
      forall q | 0 <= q < |o| ensures Precedes(t, x, o[q]) {
        PrecedesTransitive(t, x, o[0], o[q]);
      }
      SortedCons(t, x, o);
    } else {
      var rest := Insert(t, x, o[1..]);
      InsertSorted(t, x, o[1..]);
      PrecedesAll(t, o[0], x, o[1..], rest);
      SortedCons(t, o[0], rest);
    }
  }

  /** The bucket's rows in the order the query returns them, by insertion of each row in storage order. */
  function SortByMarks(t: seq<ScoreRow>, xs: seq<nat>): (r: seq<nat>)
    requires forall k :: 0 <= k < |xs| ==> xs[k] < |t|
    requires forall p, q :: 0 <= p < q < |xs| ==> xs[p] != xs[q]
    ensures multiset(r) == multiset(xs)
    ensures Sorted(t, r)
    decreases |xs|
  {
    if |xs| == 0 then []
    else
      var init := xs[..|xs| - 1];
      var x := xs[|xs| - 1];
      var o := SortByMarks(t, init);
      assert x !in init;
      assert x !in multiset(o);
      assert xs == init + [x];
      InsertSorted(t, x, o);
      Insert(t, x, o)
  }

  /** The loop `candidate.normalized_rank = current_rank; current_rank += 1` over `order`, then the bulk update. */
  function Assign(t: seq<ScoreRow>, order: seq<nat>, lower: int): (r: seq<ScoreRow>)
    requires Sorted(t, order)
    ensures |r| == |t|
    ensures forall i :: 0 <= i < |t| && i !in order ==> r[i] == t[i]
    ensures forall k :: 0 <= k < |order| ==> r[order[k]] == t[order[k]].(normalizedRank := Some(lower + k))
    decreases |order|
  {
    if |order| == 0 then t
    else
      var k := |order| - 1;
      var prev := Assign(t, order[..k], lower);
      prev[order[k] := t[order[k]].(normalizedRank := Some(lower + k))]
  }

  /** Why the renumbering raises: no bucket (`None.replace`), or a lower bound `int` rejects. */
  datatype RankError = NoBucket | BadLowerBound

  /** Rows outside the bucket keep everything. */
  ghost predicate KeepsOthers(t: seq<ScoreRow>, b: string, u: seq<ScoreRow>) {
    && |u| == |t|
    && forall i :: 0 <= i < |t| && t[i].rank != Some(b) ==> u[i] == t[i]
  }

  /** Rows in the bucket keep everything but the normalized rank, which lies in `lower .. lower + n - 1`. */
  ghost predicate RanksInRange(t: seq<ScoreRow>, b: string, lower: int, n: nat, u: seq<ScoreRow>)
    requires |u| == |t|
  {
    forall i :: 0 <= i < |t| && t[i].rank == Some(b) ==>
      && u[i] == t[i].(normalizedRank := u[i].normalizedRank)
      && u[i].normalizedRank.Some? && lower <= u[i].normalizedRank.value < lower + n
  }

  /** A row of the bucket that precedes another gets the smaller rank. */
  ghost predicate RanksFollowOrder(t: seq<ScoreRow>, b: string, u: seq<ScoreRow>)
    requires |u| == |t|
  {
    forall i, j :: 0 <= i < |t| && 0 <= j < |t| && t[i].rank == Some(b) && t[j].rank == Some(b) && Precedes(t, i, j) ==>
      && u[i].normalizedRank.Some? && u[j].normalizedRank.Some?
      && u[i].normalizedRank.value < u[j].normalizedRank.value
  }

  /** Every rank from `lower` to `lower + n - 1` is given to some row of the bucket. */
  ghost predicate RanksCover(t: seq<ScoreRow>, b: string, lower: int, n: nat, u: seq<ScoreRow>)
    requires |u| == |t|
  {
    forall v :: lower <= v < lower + n ==>
      exists i :: 0 <= i < |t| && t[i].rank == Some(b) && u[i].normalizedRank == Some(v)
  }

  /**
   * What the renumbering of bucket `b` from `lower` promises: rows outside the
   * bucket keep everything; rows inside keep everything but the normalized
   * rank, which runs over exactly `lower`, `lower + 1`, ... one per row, and
   * a row that precedes another gets the smaller rank.
   */
  ghost predicate RanksAssigned(t: seq<ScoreRow>, b: string, lower: int, u: seq<ScoreRow>) {
    var n := |Members(t, b, |t|)|;
    && KeepsOthers(t, b, u)
    && RanksInRange(t, b, lower, n, u)
    && RanksFollowOrder(t, b, u)
    && RanksCover(t, b, lower, n, u)
  }

  /** An order of exactly the bucket's rows, each once, best first. */
  ghost predicate OrdersBucket(t: seq<ScoreRow>, b: string, o: seq<nat>) {
    && Sorted(t, o)
    && (forall x :: x in o <==> 0 <= x < |t| && t[x].rank == Some(b))
    && |o| == |Members(t, b, |t|)|
  }

  lemma SortedMembers(t: seq<ScoreRow>, b: string)
    ensures OrdersBucket(t, b, SortByMarks(t, Members(t, b, |t|)))
  {
    var ms := Members(t, b, |t|);
    var o := SortByMarks(t, ms);
    assert |multiset(o)| == |multiset(ms)|;
    forall x ensures x in o <==> x in ms {
      assert x in o <==> x in multiset(o);
      assert x in ms <==> x in multiset(ms);
    }
  }

  lemma AssignKeeps(t: seq<ScoreRow>, b: string, lower: int, o: seq<nat>)
    requires OrdersBucket(t, b, o)
    ensures KeepsOthers(t, b, Assign(t, o, lower))
  {
  }

  lemma AssignInRange(t: seq<ScoreRow>, b: string, lower: int, o: seq<nat>)
    requires OrdersBucket(t, b, o)
    ensures RanksInRange(t, b, lower, |o|, Assign(t, o, lower))
  {
    var u := Assign(t, o, lower);
    forall i | 0 <= i < |t| && t[i].rank == Some(b)
      ensures u[i] == t[i].(normalizedRank := u[i].normalizedRank)
      ensures u[i].normalizedRank.Some? && lower <= u[i].normalizedRank.value < lower + |o|
    {
      assert i in o;
      var k :| 0 <= k < |o| && o[k] == i;
      assert u[o[k]] == t[o[k]].(normalizedRank := Some(lower + k));
    }
  }

  lemma AssignOrdered(t: seq<ScoreRow>, b: string, lower: int, o: seq<nat>)
    requires OrdersBucket(t, b, o)
    ensures RanksFollowOrder(t, b, Assign(t, o, lower))
  {
    var u := Assign(t, o, lower);
    forall i, j | 0 <= i < |t| && 0 <= j < |t| && t[i].rank == Some(b) && t[j].rank == Some(b) && Precedes(t, i, j)
      ensures u[i].normalizedRank.Some? && u[j].normalizedRank.Some?
      ensures u[i].normalizedRank.value < u[j].normalizedRank.value
    {
      assert i in o && j in o;
      var p :| 0 <= p < |o| && o[p] == i;
      var q :| 0 <= q < |o| && o[q] == j;
      assert !Precedes(t, j, i);
      assert p < q;
      assert u[o[p]] == t[o[p]].(normalizedRank := Some(lower + p));
      assert u[o[q]] == t[o[q]].(normalizedRank := Some(lower + q));
    }
  }

  lemma AssignCovers(t: seq<ScoreRow>, b: string, lower: int, o: seq<nat>)
    requires OrdersBucket(t, b, o)
    ensures RanksCover(t, b, lower, |o|, Assign(t, o, lower))
  {
    var u := Assign(t, o, lower);
    forall v | lower <= v < lower + |o|
      ensures exists i :: 0 <= i < |t| && t[i].rank == Some(b) && u[i].normalizedRank == Some(v)
    {
      var k := v - lower;
      assert o[k] in o;
      assert u[o[k]].normalizedRank == Some(v);
    }
  }

  /** Numbering the bucket's rows in sorted order keeps every promise of the renumbering. */
  lemma AssignSorted(t: seq<ScoreRow>, b: string, lower: int)
    ensures RanksAssigned(t, b, lower, Assign(t, SortByMarks(t, Members(t, b, |t|)), lower))
  {
    var o := SortByMarks(t, Members(t, b, |t|));
    SortedMembers(t, b);
    AssignKeeps(t, b, lower, o);
    AssignInRange(t, b, lower, o);
    AssignOrdered(t, b, lower, o);
    AssignCovers(t, b, lower, o);
  }

  /**
   * `calculate_normalized_rank(bucket)`: the whole table after the bulk
   * update, or the error raised before any row is written.
   */
  function NormalizedRanks(t: seq<ScoreRow>, bucket: Option<string>): (r: Result<seq<ScoreRow>, RankError>)
    ensures bucket.None? ==> r == Failure(NoBucket)
    ensures bucket.Some? && BucketLower(bucket.value).None? ==> r == Failure(BadLowerBound)
    ensures r.Success? <==> bucket.Some? && BucketLower(bucket.value).Some?
    ensures r.Success? ==> RanksAssigned(t, bucket.value, BucketLower(bucket.value).value, r.value)
  {
    match bucket
    case None => Failure(NoBucket)
    case Some(b) =>
      match BucketLower(b)
      case None => Failure(BadLowerBound)
      case Some(lower) =>
        AssignSorted(t, b, lower);
        Success(Assign(t, SortByMarks(t, Members(t, b, |t|)), lower))
  }

  /**
   * A text starting with a letter has no integer lower bound: its first
   * piece before `-` starts with that letter, and `int` rejects it.
   */
  lemma BucketLowerOfWord(b: string)
    requires |b| > 0 && IsAlpha(b[0])
    ensures BucketLower(b).None?
  {
    var x := RemoveChar(b, ' ');
    RemoveCharHead(b, ' ');
    var r0 := Split(x, "-")[0];
    FirstPieceHead(x);
    ParseIntOfWord(r0);
  }

  /** Removing a character other than the first keeps the first. */
  lemma RemoveCharHead(b: string, c: char)
    requires |b| > 0 && b[0] != c
    ensures |RemoveChar(b, c)| > 0 && RemoveChar(b, c)[0] == b[0]
  {
    assert RemoveChar(b, c) == [b[0]] + RemoveChar(b[1..], c);
  }

  /** The first piece of a split on `-` starts with the text's first character, unless that is `-`. */
  lemma FirstPieceHead(x: string)
    requires |x| > 0 && x[0] != '-'
    ensures var r0 := Split(x, "-")[0]; |r0| > 0 && r0[0] == x[0]
  {
    var r := Split(x, "-");
    var r0 := r[0];
    var rest := if |r| == 1 then "" else "-" + Join(r[1..], "-");
    assert x == r0 + rest;
    assert |rest| > 0 ==> rest[0] == '-';
  }

  /** `int` rejects a text starting with a letter. */
  lemma ParseIntOfWord(s: string)
    requires |s| > 0 && IsAlpha(s[0])
    ensures ParseInt(s).None?
  {
    AlphaNotSpace(s[0]);
    var left := TrimLeft(s, IsSpace);
    assert left == s;
    var t := Strip(s);
    assert t == TrimRight(s, IsSpace);
    assert |t| > 0 && t[0] == s[0];
    assert !IsNumeralChar(t[0]);
  }

  lemma SplitExample(s: string, h: string)
    requires s == "100-150" && h == "100"
    ensures Split(RemoveChar(s, ' '), "-")[0] == h
  {
    assert ' ' !in s;
    assert RemoveChar(s, ' ') == s;
    assert s == h + "-" + "150";
    SplitFirst(h, "-", "150");
  }

  lemma ParseHundred(s: string)
    requires s == "100"
    ensures ParseInt(s) == Some(100)
  {
    assert DecimalText(100) == s;
    ParseIntText(100);
  }

  lemma ParseOpenBucket(u: string)
    requires u == "1000+"
    ensures ParseInt(u) == None
  {
    assert !IsSpace(u[0]) && !IsSpace(u[4]) by {
      assert u[0] == '1' && u[4] == '+';
    }
    TrimKeeps(u, IsSpace);
    assert !IsDigit(u[4]);
  }

  /** `100-150` starts at 100. */
  lemma BucketLowerClosed(s: string)
    requires s == "100-150"
    ensures BucketLower(s) == Some(100)
  {
    var h := "100";
    SplitExample(s, h);
    ParseHundred(h);
  }

  /** `1000+` has no integer before a `-`, so renumbering that bucket raises. */
  lemma BucketLowerOpen(u: string)
    requires u == "1000+"
    ensures BucketLower(u) == None
  {
    assert ' ' !in u && '-' !in u;
    assert RemoveChar(u, ' ') == u;
    FindChar(u, '-');
    ParseOpenBucket(u);
  }

  /** A table bucket `l-u` renumbers from `l`: its lower bound is the integer before the `-`. */
  lemma BucketLowerOfRange(l: nat, u: nat)
    ensures BucketLower(DecimalText(l) + "-" + DecimalText(u)) == Some(l)
  {
    ClosedText(DecimalText(l), DecimalText(u));
    ParseIntText(l);
  }

  /** An open table bucket `l+` has no `-`, so `int` reads the whole text, `+` included, and raises. */
  lemma BucketLowerOfOpenRange(l: nat)
    ensures BucketLower(DecimalText(l) + "+").None?
  {
    var t := DecimalText(l);
    var text := t + "+";
    DigitsLack(t, ' ');
    DigitsLack(t, '-');
    assert ' ' !in text && '-' !in text;
    assert RemoveChar(text, ' ') == text;
    FindAbsent(text, "-");
    assert Split(text, "-") == [text];
    assert !IsSpace(text[0]) && !IsSpace(text[|text| - 1]) by {
      assert IsDigit(text[0]) && text[|text| - 1] == '+';
    }
    TrimKeeps(text, IsSpace);
    assert !AllDigits(text) by {
      assert text[|t|] == '+';
    }
  }

  /** When every row is in the bucket, the bucket's rows are all positions in storage order. */
  lemma {:induction false} MembersAll(t: seq<ScoreRow>, b: string, n: nat)
    requires n <= |t| && forall i :: 0 <= i < n ==> t[i].rank == Some(b)
    ensures |Members(t, b, n)| == n && forall k :: 0 <= k < n ==> Members(t, b, n)[k] == k
    decreases n
  {
    if n > 0 {
      MembersAll(t, b, n - 1);
      var prev := Members(t, b, n - 1);
      assert t[n - 1].rank == Some(b);
      assert Members(t, b, n) == prev + [n - 1];
    }
  }

  /** Any numbering of three bucket rows with marks 90, 95 and 92 from 100 gives them 102, 100 and 101. */
  lemma ThreeRanks(t: seq<ScoreRow>, b: string, u: seq<ScoreRow>)
    requires |t| == 3 && forall i :: 0 <= i < 3 ==> t[i].rank == Some(b)
    requires t[0].normalizedMarks == 90.0 && t[1].normalizedMarks == 95.0 && t[2].normalizedMarks == 92.0
    requires |u| == 3 && RanksInRange(t, b, 100, 3, u) && RanksFollowOrder(t, b, u)
    ensures u[0].normalizedRank == Some(102) && u[1].normalizedRank == Some(100) && u[2].normalizedRank == Some(101)
  {
    assert Precedes(t, 1, 2) && Precedes(t, 2, 0);
    var r0, r1, r2 := u[0].normalizedRank.value, u[1].normalizedRank.value, u[2].normalizedRank.value;
    assert 100 <= r1 < r2 < r0 < 103;
  }

  /**
   * Bucket `100-150` holding normalized marks 90, 95 and 92 in storage order
   * is renumbered 102, 100 and 101: the best row gets the lower bound.
   */
  lemma RenumberExample(t: seq<ScoreRow>, b: string)
    requires b == "100-150"
    requires |t| == 3 && forall i :: 0 <= i < 3 ==> t[i].rank == Some(b)
    requires t[0].normalizedMarks == 90.0 && t[1].normalizedMarks == 95.0 && t[2].normalizedMarks == 92.0
    ensures NormalizedRanks(t, Some(b)).Success?
    ensures var u := NormalizedRanks(t, Some(b)).value;
      |u| == 3 && u[0].normalizedRank == Some(102) && u[1].normalizedRank == Some(100) && u[2].normalizedRank == Some(101)
  {
    BucketLowerClosed(b);
    var r := NormalizedRanks(t, Some(b));
    assert r.Success? && RanksAssigned(t, b, 100, r.value);
    MembersAll(t, b, 3);
    ThreeRanks(t, b, r.value);
  }
}

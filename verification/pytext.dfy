/**
 * The Python `str` operations the scoring pipeline relies on, over `seq<char>`:
 * `strip`, `strip(chars)`, `replace`, `lower`, `in`, `split(sep)` and `sep.join`.
 * Each is written out with the meaning Python gives it, so that the modules
 * modelling the loader and the scorer can use them by name.
 */
module PyText {
  import opened Base

  /** `str.isspace()` for one character: the code points CPython counts as whitespace. */
  predicate IsSpace(c: char) {
    var n := c as int;
    || n == 32 || 9 <= n <= 13 || 28 <= n <= 31 || n == 0x85 || n == 0xA0 || n == 0x1680
    || 0x2000 <= n <= 0x200A || n == 0x2028 || n == 0x2029 || n == 0x202F || n == 0x205F
    || n == 0x3000
  }

  /** `str.isalpha()` for one character, restricted to the ASCII letters. */
  predicate IsAlpha(c: char) {
    'a' <= c <= 'z' || 'A' <= c <= 'Z'
  }

  predicate IsDigit(c: char) {
    '0' <= c <= '9'
  }

  /** `str.lower()` for one character, restricted to the ASCII letters. */
  function LowerChar(c: char): (r: char)
    ensures IsAlpha(c) ==> IsAlpha(r) && 'a' <= r <= 'z'
    ensures !IsAlpha(c) ==> r == c
  {
    if 'A' <= c <= 'Z' then (c as int + 32) as char else c
  }

  function Lower(s: string): (r: string)
    ensures |r| == |s|
    ensures forall i :: 0 <= i < |s| ==> r[i] == LowerChar(s[i])
  {
    seq(|s|, i requires 0 <= i < |s| => LowerChar(s[i]))
  }

  lemma LowerAppend(a: string, b: string)
    ensures Lower(a + b) == Lower(a) + Lower(b)
  {
    assert Lower(a + b) == Lower(a) + Lower(b);
  }

  /* ---------------- strip ---------------- */

  /** Drops the leading characters satisfying `drop`: the result is a suffix of `s`. */
  function TrimLeft(s: string, drop: char -> bool): (r: string)
    ensures |r| <= |s| && r == s[|s| - |r|..]
    ensures forall i :: 0 <= i < |s| - |r| ==> drop(s[i])
    ensures |r| > 0 ==> !drop(r[0])
    decreases |s|
  {
    if |s| > 0 && drop(s[0]) then TrimLeft(s[1..], drop) else s
  }

  /** Drops the trailing characters satisfying `drop`: the result is a prefix of `s`. */
  function TrimRight(s: string, drop: char -> bool): (r: string)
    ensures |r| <= |s| && r == s[..|r|]
    ensures forall i :: |r| <= i < |s| ==> drop(s[i])
    ensures |r| > 0 ==> !drop(r[|r| - 1])
    decreases |s|
  {
    if |s| > 0 && drop(s[|s| - 1]) then TrimRight(s[..|s| - 1], drop) else s
  }

  /** `s.strip(chars)`: both ends trimmed; the result is a slice of `s` whose end characters are kept ones. */
  function Trim(s: string, drop: char -> bool): (r: string)
    ensures exists i, j :: 0 <= i <= j <= |s| && r == s[i..j]
    ensures |r| > 0 ==> !drop(r[0]) && !drop(r[|r| - 1])
  {
    var t := TrimLeft(s, drop);
    var r := TrimRight(t, drop);
    assert r == s[|s| - |t|..|s| - |t| + |r|];
    r
  }

  /** `s.strip()` */
  function Strip(s: string): string {
    Trim(s, IsSpace)
  }

  predicate IsParen(c: char) {
    c == '(' || c == ')'
  }

  /** `s.strip('()')` */
  function StripParens(s: string): string {
    Trim(s, IsParen)
  }

  /** Trimming leaves a text alone when neither end character would be dropped. */
  lemma TrimKeeps(s: string, drop: char -> bool)
    requires |s| > 0 ==> !drop(s[0]) && !drop(s[|s| - 1])
    ensures Trim(s, drop) == s
  {
  }

  /** Where the trimmed text sits in `s`: every character outside it is one that trimming drops. */
  lemma TrimSpan(s: string, drop: char -> bool) returns (i: nat)
    ensures i + |Trim(s, drop)| <= |s| && Trim(s, drop) == s[i..i + |Trim(s, drop)|]
    ensures forall k :: 0 <= k < |s| && !(i <= k < i + |Trim(s, drop)|) ==> drop(s[k])
  {
    var t := TrimLeft(s, drop);
    var r := TrimRight(t, drop);
    i := |s| - |t|;
    assert r == Trim(s, drop);
    forall k | 0 <= k < |s| && !(i <= k < i + |r|) ensures drop(s[k]) {
      if k >= i {
        assert s[k] == t[k - i];
      }
    }
  }

  /** Stripping whitespace leaves a text alone when it starts and ends with other characters. */
  lemma StripKeeps(s: string)
    requires |s| > 0 && !IsSpace(s[0]) && !IsSpace(s[|s| - 1])
    ensures Strip(s) == s
  {
    TrimKeeps(s, IsSpace);
  }

  lemma AlphaNotSpace(c: char)
    requires IsAlpha(c)
    ensures !IsSpace(c)
  {
  }

  lemma DigitNotSpace(c: char)
    requires IsDigit(c)
    ensures !IsSpace(c)
  {
  }

  /* ---------------- replace ---------------- */

  /** `s.replace(c, rep)` for a one-character pattern. */
  function Replace(s: string, c: char, rep: string): (r: string)
    ensures c !in s ==> r == s
    ensures c !in rep ==> c !in r
    ensures forall x :: x in r && x !in rep ==> x in s
    decreases |s|
  {
    if |s| == 0 then []
    else (if s[0] == c then rep else [s[0]]) + Replace(s[1..], c, rep)
  }

  /** `s.replace(c, "")` */
  function RemoveChar(s: string, c: char): string {
    Replace(s, c, "")
  }

  lemma {:induction false} ReplaceAppend(a: string, b: string, c: char, rep: string)
    ensures Replace(a + b, c, rep) == Replace(a, c, rep) + Replace(b, c, rep)
    decreases |a|
  {
    if |a| == 0 {
      assert a + b == b;
    } else {
      assert (a + b)[1..] == a[1..] + b;
      ReplaceAppend(a[1..], b, c, rep);
    }
  }

  /* ---------------- in / find ---------------- */

  predicate OccursAt(s: string, sep: string, i: nat) {
    i + |sep| <= |s| && s[i..i + |sep|] == sep
  }

  /** Shifting the text by one character shifts every occurrence by one. */
  lemma OccursShift(s: string, sep: string)
    requires |s| > 0
    ensures forall i: nat :: OccursAt(s, sep, i + 1) <==> OccursAt(s[1..], sep, i)
  {
    forall i: nat ensures OccursAt(s, sep, i + 1) <==> OccursAt(s[1..], sep, i) {
      if i + 1 + |sep| <= |s| {
        assert s[1..][i..i + |sep|] == s[i + 1..i + 1 + |sep|];
      }
    }
  }

  /** An occurrence inside a prefix is an occurrence in the whole text. */
  lemma OccursPrefix(s: string, sep: string, n: nat)
    requires n <= |s|
    ensures forall j: nat :: OccursAt(s[..n], sep, j) ==> OccursAt(s, sep, j)
  {
    forall j: nat | OccursAt(s[..n], sep, j) ensures OccursAt(s, sep, j) {
      assert s[..n][j..j + |sep|] == s[j..j + |sep|];
    }
  }

  /** `s.find(sep)`, with `None` for -1: the first position at which `sep` occurs. */
  function Find(s: string, sep: string): (r: Option<nat>)
    requires |sep| > 0
    ensures r.Some? ==> OccursAt(s, sep, r.value)
    ensures forall i: nat :: (r.None? || i < r.value) ==> !OccursAt(s, sep, i)
    decreases |s|
  {
    if |s| < |sep| then None
    else if s[..|sep|] == sep then Some(0)
    else
      var rest := Find(s[1..], sep);
      OccursShift(s, sep);
      assert !OccursAt(s, sep, 0) by {
        assert s[0..|sep|] == s[..|sep|];
      }
      assert forall i: nat :: i > 0 ==> (OccursAt(s, sep, i) <==> OccursAt(s[1..], sep, i - 1)) by {
        forall i: nat | i > 0 ensures OccursAt(s, sep, i) <==> OccursAt(s[1..], sep, i - 1) {
          assert OccursAt(s, sep, (i - 1) + 1) <==> OccursAt(s[1..], sep, i - 1);
        }
      }
      match rest
      case None => None
      case Some(i) => Some(i + 1)
  }

  /** `sep in s` */
  predicate Contains(s: string, sep: string)
    requires |sep| > 0
  {
    Find(s, sep).Some?
  }

  /** A text in which the first character of `sep` never appears holds no occurrence of `sep`. */
  lemma FindAbsent(p: string, sep: string)
    requires |sep| > 0 && sep[0] !in p
    ensures Find(p, sep).None?
  {
    forall i: nat ensures !OccursAt(p, sep, i) {
      if i + |sep| <= |p| {
        assert p[i..i + |sep|][0] == p[i];
      }
    }
  }

  /** Where the text before `sep` cannot start an occurrence, `sep` is first found right after it. */
  lemma FindAfter(p: string, sep: string, t: string)
    requires |sep| > 0 && sep[0] !in p
    ensures Find(p + sep + t, sep) == Some(|p|)
  {
    var s := p + sep + t;
    assert s[|p|..|p| + |sep|] == sep;
    assert OccursAt(s, sep, |p|);
    forall i: nat | i < |p| ensures !OccursAt(s, sep, i) {
      if i + |sep| <= |s| {
        assert s[i..i + |sep|][0] == s[i] == p[i];
      }
    }
  }

  /** Finding a one-character pattern is membership. */
  lemma FindChar(s: string, c: char)
    ensures Find(s, [c]).Some? <==> c in s
  {
    if c in s {
      var i :| 0 <= i < |s| && s[i] == c;
      assert s[i..i + 1] == [c];
      assert OccursAt(s, [c], i);
    }
    if Find(s, [c]).Some? {
      var i := Find(s, [c]).value;
      assert s[i..i + 1][0] == s[i];
    }
  }

  /* ---------------- split / join ---------------- */

  /** `sep.join(ps)` */
  function Join(ps: seq<string>, sep: string): string
    decreases |ps|
  {
    if |ps| == 0 then ""
    else if |ps| == 1 then ps[0]
    else ps[0] + sep + Join(ps[1..], sep)
  }

  /**
   * `s.split(sep)` for a non-empty separator: the pieces between the
   * non-overlapping occurrences of `sep`, scanned left to right. Joining the
   * pieces back with `sep` gives `s`, and no piece holds `sep`.
   */
  function Split(s: string, sep: string): (r: seq<string>)
    requires |sep| > 0
    ensures |r| > 0
    ensures Join(r, sep) == s
    ensures forall k :: 0 <= k < |r| ==> Find(r[k], sep).None?
    decreases |s|
  {
    match Find(s, sep)
    case None => [s]
    case Some(i) =>
      var head := s[..i];
      var tail := Split(s[i + |sep|..], sep);
      assert s == head + sep + s[i + |sep|..];
      OccursPrefix(s, sep, i);
      [head] + tail
  }

  /** Splitting at a first occurrence that the text before it cannot start: that text, then the split of the rest. */
  lemma SplitFirst(a: string, sep: string, t: string)
    requires |sep| > 0 && sep[0] !in a
    ensures Split(a + sep + t, sep) == [a] + Split(t, sep)
  {
    FindAfter(a, sep, t);
    var s := a + sep + t;
    assert s[..|a|] == a;
    assert s[|a| + |sep|..] == t;
  }

  /**
   * Splitting a join gives the parts back, provided no part holds the first
   * character of the separator (so that no part can start a false occurrence).
   */
  lemma {:induction false} SplitJoin(ps: seq<string>, sep: string)
    requires |sep| > 0 && |ps| > 0
    requires forall k :: 0 <= k < |ps| ==> sep[0] !in ps[k]
    ensures Split(Join(ps, sep), sep) == ps
    decreases |ps|
  {
    if |ps| == 1 {
      FindAbsent(ps[0], sep);
    } else {
      SplitFirst(ps[0], sep, Join(ps[1..], sep));
      SplitJoin(ps[1..], sep);
      assert ps == [ps[0]] + ps[1..];
    }
  }

  /** Joining non-empty pieces starts with the first piece's first character and ends with the last piece's last one. */
  lemma {:induction false} JoinEnds(ps: seq<string>, sep: string)
    requires |ps| > 0 && forall k :: 0 <= k < |ps| ==> |ps[k]| > 0
    ensures |Join(ps, sep)| > 0
    ensures Join(ps, sep)[0] == ps[0][0]
    ensures Join(ps, sep)[|Join(ps, sep)| - 1] == ps[|ps| - 1][|ps[|ps| - 1]| - 1]
    decreases |ps|
  {
    if |ps| > 1 {
      var rest := ps[1..];
      JoinEnds(rest, sep);
      assert rest[|rest| - 1] == ps[|ps| - 1];
      var j := Join(rest, sep);
      assert Join(ps, sep) == ps[0] + sep + j;
    }
  }

  /** Replacing a character commutes with joining when the replacement is applied to the separator too. */
  lemma {:induction false} ReplaceJoin(ps: seq<string>, sep: string, c: char, rep: string)
    ensures Replace(Join(ps, sep), c, rep)
         == Join(seq(|ps|, i requires 0 <= i < |ps| => Replace(ps[i], c, rep)), Replace(sep, c, rep))
    decreases |ps|
  {
    var qs := seq(|ps|, i requires 0 <= i < |ps| => Replace(ps[i], c, rep));
    if |ps| > 1 {
      ReplaceAppend(ps[0] + sep, Join(ps[1..], sep), c, rep);
      ReplaceAppend(ps[0], sep, c, rep);
      ReplaceJoin(ps[1..], sep, c, rep);
      assert qs[1..] == seq(|ps[1..]|, i requires 0 <= i < |ps[1..]| => Replace(ps[1..][i], c, rep));
    }
  }

  /** Lower-casing commutes with joining. */
  lemma {:induction false} LowerJoin(ps: seq<string>, sep: string)
    ensures Lower(Join(ps, sep)) == Join(seq(|ps|, i requires 0 <= i < |ps| => Lower(ps[i])), Lower(sep))
    decreases |ps|
  {
    var qs := seq(|ps|, i requires 0 <= i < |ps| => Lower(ps[i]));
    if |ps| > 1 {
      LowerAppend(ps[0] + sep, Join(ps[1..], sep));
      LowerAppend(ps[0], sep);
      LowerJoin(ps[1..], sep);
      assert qs[1..] == seq(|ps[1..]|, i requires 0 <= i < |ps[1..]| => Lower(ps[1..][i]));
    }
  }

  /** The text before the first `c` holds no `c`. */
  lemma BeforeFirst(g: string, c: char)
    requires c in g
    ensures Find(g, [c]).Some?
    ensures var i := Find(g, [c]).value; i < |g| && g[i] == c && c !in g[..i]
  {
    FindChar(g, c);
    var i := Find(g, [c]).value;
    assert g[i..i + 1][0] == g[i];
    forall j | 0 <= j < i ensures g[..i][j] != c {
      assert !OccursAt(g, [c], j);
      assert g[j..j + 1] == [g[j]];
    }
  }

  /** Replacing in a text cut at a `c`: the part before, `rep`, then the rest replaced. */
  lemma ReplaceAtFirst(a: string, c: char, b: string, rep: string)
    requires c !in a
    ensures Replace(a + [c] + b, c, rep) == a + rep + Replace(b, c, rep)
  {
    var cb := [c] + b;
    assert a + [c] + b == a + cb;
    ReplaceAppend(a, cb, c, rep);
    assert cb[0] == c && cb[1..] == b;
    assert Replace(cb, c, rep) == rep + Replace(b, c, rep);
  }

  /**
   * Rewriting every `c` as `rep` and then splitting on `rep` cuts the text exactly
   * where it held `c`, when the first character of `rep` does not occur in it.
   */
  lemma {:induction false} SplitReplaced(g: string, c: char, rep: string)
    requires |rep| > 0 && rep[0] !in g
    ensures Split(Replace(g, c, rep), rep) == Split(g, [c])
    decreases |g|
  {
    if c !in g {
      FindAbsent(g, rep);
      FindChar(g, c);
    } else {
      BeforeFirst(g, c);
      var i := Find(g, [c]).value;
      var a, b := g[..i], g[i + 1..];
      assert g == a + [c] + b;
      ReplaceAtFirst(a, c, b, rep);
      SplitFirst(a, rep, Replace(b, c, rep));
      SplitFirst(a, [c], b);
      assert rep[0] !in b;
      SplitReplaced(b, c, rep);
    }
  }
}

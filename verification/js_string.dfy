/** The JavaScript string operations the schema chains together: `trim`,
    `split(' ')`, `join(' ')` and `endsWith`, on strings as sequences of
    characters. The whitespace set of `trim` is a parameter.
 */
module JsString {

  /** Every character of `s` is whitespace (vacuously so for the empty string). */
  ghost predicate AllWhitespace(isWhitespace: char -> bool, s: string) {
    forall i :: 0 <= i < |s| ==> isWhitespace(s[i])
  }

  /** How many whitespace characters `s` starts with. */
  function LeadingWhitespace(isWhitespace: char -> bool, s: string): (n: nat)
    ensures n <= |s|
    ensures forall i :: 0 <= i < n ==> isWhitespace(s[i])
    ensures n < |s| ==> !isWhitespace(s[n])
    decreases |s|
  {
    if |s| > 0 && isWhitespace(s[0]) then 1 + LeadingWhitespace(isWhitespace, s[1..]) else 0
  }

  /** How many whitespace characters `s` ends with. */
  function TrailingWhitespace(isWhitespace: char -> bool, s: string): (n: nat)
    ensures n <= |s|
    ensures forall i :: |s| - n <= i < |s| ==> isWhitespace(s[i])
    ensures n < |s| ==> !isWhitespace(s[|s| - 1 - n])
    decreases |s|
  {
    if |s| > 0 && isWhitespace(s[|s| - 1]) then 1 + TrailingWhitespace(isWhitespace, s[..|s| - 1]) else 0
  }

  /** String.prototype.trim: the contiguous piece of `s` left once the
      leading and the trailing whitespace are dropped; it neither starts nor
      ends with whitespace, and it is empty exactly for all-whitespace input. */
  function Trim(isWhitespace: char -> bool, s: string): (r: string)
    ensures var k := LeadingWhitespace(isWhitespace, s);
            && k + |r| <= |s| && r == s[k..k + |r|]
            && (forall i :: k + |r| <= i < |s| ==> isWhitespace(s[i]))
    ensures r != [] ==> !isWhitespace(r[0]) && !isWhitespace(r[|r| - 1])
    ensures r == [] <==> AllWhitespace(isWhitespace, s)
  {
    var a := LeadingWhitespace(isWhitespace, s);
    if a == |s| then []
    else
      var b := TrailingWhitespace(isWhitespace, s);
      assert a < |s| - b;
      s[a..|s| - b]
  }

  /** A string that neither starts nor ends with whitespace is its own trim. */
  lemma TrimOfTrimmed(isWhitespace: char -> bool, s: string)
    requires s == [] || (!isWhitespace(s[0]) && !isWhitespace(s[|s| - 1]))
    ensures Trim(isWhitespace, s) == s
  {
  }

  /** Array.prototype.join(' '): the pieces with one space between
      neighbours. */
  function Join(pieces: seq<string>): string
  {
    if |pieces| == 0 then []
    else if |pieces| == 1 then pieces[0]
    else pieces[0] + [' '] + Join(pieces[1..])
  }

  /** String.prototype.split(' '): the maximal space-free runs of `s`, so one
      more piece than `s` has spaces; joining them back gives `s`. */
  function Split(s: string): (r: seq<string>)
    ensures |r| >= 1
    ensures forall i :: 0 <= i < |r| ==> ' ' !in r[i]
    ensures Join(r) == s
    decreases |s|
  {
    if |s| == 0 then [[]]
    else
      var rest := Split(s[1..]);
      if s[0] == ' ' then [[]] + rest
      else [[s[0]] + rest[0]] + rest[1..]
  }

  /** No piece is the empty string. */
  predicate NoEmptyPiece(pieces: seq<string>) {
    forall i :: 0 <= i < |pieces| ==> |pieces[i]| > 0
  }

  /** `s` is non-empty, does not start or end with a space and has no two
      spaces in a row. */
  predicate WellSpaced(s: string) {
    && |s| > 0
    && s[0] != ' '
    && s[|s| - 1] != ' '
    && !HasDoubleSpace(s)
  }

  /** Two spaces stand next to each other somewhere in `s`. */
  predicate HasDoubleSpace(s: string) {
    exists i :: 0 < i < |s| && s[i] == ' ' && s[i - 1] == ' '
  }

  /** A string without a space splits into itself alone. */
  lemma {:induction false} SplitNoSpace(a: string)
    requires ' ' !in a
    ensures Split(a) == [a]
    decreases |a|
  {
    if |a| > 0 {
      assert ' ' !in a[1..];
      SplitNoSpace(a[1..]);
      assert [a[0]] + a[1..] == a;
    }
  }

  /** A space-free run followed by a space is split off as the first piece. */
  lemma {:induction false} SplitAfterRun(a: string, t: string)
    requires ' ' !in a
    ensures Split(a + [' '] + t) == [a] + Split(t)
    decreases |a|
  {
    var s := a + [' '] + t;
    if |a| == 0 {
      assert s[1..] == t;
    } else {
      assert s[1..] == a[1..] + [' '] + t;
      assert ' ' !in a[1..];
      SplitAfterRun(a[1..], t);
      assert [a[0]] + a[1..] == a;
    }
  }

  /** Two spaces between space-free runs leave an empty piece between them. */
  lemma {:induction false} SplitDoubleSpace(a: string, c: string)
    requires ' ' !in a && ' ' !in c
    ensures Split(a + "  " + c) == [a, [], c]
  {
    assert a + "  " + c == a + [' '] + ([' '] + c);
    SplitAfterRun(a, [' '] + c);
    assert [] + [' '] + c == [' '] + c;
    SplitAfterRun([], c);
    SplitNoSpace(c);
  }

  /** split(' ') undoes join(' ') on space-free pieces. */
  lemma {:induction false} SplitOfJoin(pieces: seq<string>)
    requires |pieces| >= 1
    requires forall i :: 0 <= i < |pieces| ==> ' ' !in pieces[i]
    ensures Split(Join(pieces)) == pieces
    decreases |pieces|
  {
    if |pieces| == 1 {
      SplitNoSpace(pieces[0]);
    } else {
      SplitAfterRun(pieces[0], Join(pieces[1..]));
      SplitOfJoin(pieces[1..]);
      assert [pieces[0]] + pieces[1..] == pieces;
    }
  }

  /** The first piece is empty exactly when `s` is empty or starts with a space. */
  lemma FirstPieceEmpty(s: string)
    ensures |Split(s)[0]| == 0 <==> |s| == 0 || s[0] == ' '
    ensures |Split(s)[0]| > 0 ==> Split(s)[0][0] == s[0]
  {
  }

  /** The joined string starts with the first piece. */
  lemma JoinStart(pieces: seq<string>)
    requires |pieces| >= 1 && |pieces[0]| > 0
    ensures |Join(pieces)| > 0 && Join(pieces)[0] == pieces[0][0]
  {
  }

  /** The joined string ends with the last piece; an empty last piece after
      others leaves the joining space at the end. */
  lemma {:induction false} JoinEnd(pieces: seq<string>)
    requires |pieces| >= 1
    ensures var last := pieces[|pieces| - 1];
            var j := Join(pieces);
            && (|last| > 0 ==> |j| > 0 && j[|j| - 1] == last[|last| - 1])
            && (|last| == 0 && |pieces| > 1 ==> |j| > 0 && j[|j| - 1] == ' ')
    decreases |pieces|
  {
    if |pieces| > 1 {
      JoinEnd(pieces[1..]);
    }
  }

  /** The last piece is empty exactly when `s` is empty or ends with a space. */
  lemma LastPieceEmpty(s: string)
    ensures var pieces := Split(s);
            var last := pieces[|pieces| - 1];
            && (|last| == 0 <==> |s| == 0 || s[|s| - 1] == ' ')
            && (|last| > 0 ==> last[|last| - 1] == s[|s| - 1])
  {
    var pieces := Split(s);
    JoinEnd(pieces);
  }

  /** Dropping a leading character followed by a visible one keeps the
      string well spaced, and conversely. */
  lemma WellSpacedDropChar(s: string)
    requires |s| >= 2 && s[0] != ' ' && s[1] != ' '
    ensures WellSpaced(s) <==> WellSpaced(s[1..])
  {
    var t := s[1..];
    if HasDoubleSpace(s) {
      var i :| 0 < i < |s| && s[i] == ' ' && s[i - 1] == ' ';
      assert t[i - 1] == ' ' && t[i - 2] == ' ';
    }
    if HasDoubleSpace(t) {
      var i :| 0 < i < |t| && t[i] == ' ' && t[i - 1] == ' ';
      assert s[i + 1] == ' ' && s[i] == ' ';
    }
  }

  /** Dropping a leading character and the single space after it keeps the
      string well spaced, and conversely. */
  lemma WellSpacedDropWord(s: string)
    requires |s| >= 2 && s[0] != ' ' && s[1] == ' '
    ensures WellSpaced(s) <==> WellSpaced(s[2..])
  {
    var t := s[2..];
    if HasDoubleSpace(s) && |t| > 0 && t[0] != ' ' {
      var i :| 0 < i < |s| && s[i] == ' ' && s[i - 1] == ' ';
      assert i > 2;
      assert t[i - 2] == ' ' && t[i - 3] == ' ';
    }
    if HasDoubleSpace(t) {
      var i :| 0 < i < |t| && t[i] == ' ' && t[i - 1] == ' ';
      assert s[i + 2] == ' ' && s[i + 1] == ' ';
    }
  }

  /** Splitting yields an empty piece exactly when the string is empty,
      starts or ends with a space, or has two spaces in a row. */
  lemma {:induction false} NoEmptyPieceIffWellSpaced(s: string)
    ensures NoEmptyPiece(Split(s)) <==> WellSpaced(s)
    decreases |s|
  {
    if |s| == 0 {
    } else if s[0] == ' ' {
      assert |Split(s)[0]| == 0;
    } else if |s| == 1 {
      assert s[1..] == [];
      assert Split(s[1..]) == [[]];
      assert Split(s) == [[s[0]] + []];
    } else if s[1] == ' ' {
      var t := s[2..];
      assert s[1..] == [' '] + t;
      assert s[1..][1..] == t;
      assert Split(s[1..]) == [[]] + Split(t);
      assert Split(s) == [[s[0]] + []] + Split(t);
      NoEmptyPieceIffWellSpaced(t);
      WellSpacedDropWord(s);
    } else {
      var t := s[1..];
      var rest := Split(t);
      FirstPieceEmpty(t);
      assert Split(s) == [[s[0]] + rest[0]] + rest[1..];
      assert NoEmptyPiece(Split(s)) <==> NoEmptyPiece(rest);
      NoEmptyPieceIffWellSpaced(t);
      WellSpacedDropChar(s);
    }
  }

  /** String.prototype.endsWith: the last characters of `s`, one by one, are
      those of `suffix`. */
  predicate EndsWith(s: string, suffix: string)
    ensures EndsWith(s, suffix) <==>
              |suffix| <= |s| && forall i :: 0 <= i < |suffix| ==> s[|s| - |suffix| + i] == suffix[i]
  {
    |suffix| <= |s| && s[|s| - |suffix|..] == suffix
  }
}

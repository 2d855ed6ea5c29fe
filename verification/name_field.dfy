/** The `name` field of the user form: a required string that is trimmed,
    split on single spaces, has the first character of every piece
    upper-cased, and is joined back with single spaces.
 */
module NameField {
  import opened Platform
  import opened JsString
  import opened Checks

  const NameRequired := "O nome é obrigatório"

  /** One piece with its first character upper-cased and the rest kept.
      The source reads `word[0]`, which does not exist for an empty piece. */
  function CapitalizeWord(b: Builtins, word: string): (r: string)
    requires |word| > 0
    ensures UpperKeepsNonSpace(b) && ' ' !in word ==> ' ' !in r
  {
    [b.toUpper(word[0])] + word[1..]
  }

  /** Every piece capitalised, in order. */
  function CapitalizeAll(b: Builtins, pieces: seq<string>): (r: seq<string>)
    requires NoEmptyPiece(pieces)
    ensures |r| == |pieces| && NoEmptyPiece(r)
  {
    seq(|pieces|, i requires 0 <= i < |pieces| => CapitalizeWord(b, pieces[i]))
  }

  /** Reference definition of the capitalised name, character by character:
      a character is upper-cased exactly when it starts the string or follows
      a space. */
  function Initials(b: Builtins, s: string): string
  {
    seq(|s|, i requires 0 <= i < |s| => if i == 0 || s[i - 1] == ' ' then b.toUpper(s[i]) else s[i])
  }

  /** What the transform of a non-empty name produces. `FirstCharOfEmptyPiece`
      stands for the TypeError raised when `word[0]` is undefined. */
  datatype Transformed = Capitalized(name: string) | FirstCharOfEmptyPiece

  /** trim, split(' '), capitalise every piece, join(' '). */
  function TransformName(b: Builtins, name: string): (r: Transformed)
    ensures r.Capitalized? <==> NoEmptyPiece(Split(Trim(b.isWhitespace, name)))
  {
    var pieces := Split(Trim(b.isWhitespace, name));
    if NoEmptyPiece(pieces) then Capitalized(Join(CapitalizeAll(b, pieces)))
    else FirstCharOfEmptyPiece
  }

  /** The whole field: the non-empty check on the raw string, then the
      transform, which only runs once the check has passed. */
  function CheckName(b: Builtins, name: string): (r: FieldResult<string>)
    ensures r.Rejected? <==> |name| == 0
  {
    if |name| == 0 then Rejected([NameRequired])
    else match TransformName(b, name)
      case Capitalized(n) => Accepted(n)
      case FirstCharOfEmptyPiece => Threw
  }

  /** The empty name is reported as required and nothing else; the transform,
      which would have thrown on it, does not run. */
  lemma EmptyNameRejected(b: Builtins)
    ensures CheckName(b, "") == Rejected([NameRequired])
    ensures TransformName(b, "") == FirstCharOfEmptyPiece
  {
    assert Trim(b.isWhitespace, "") == "";
    assert Split("") == [""];
  }

  /** The field throws exactly for a non-empty name that trims to nothing or
      whose trimmed form has two spaces in a row. */
  lemma {:induction false} NameThrowsIff(b: Builtins, name: string)
    requires SpaceIsWhitespace(b)
    ensures CheckName(b, name).Threw? <==>
              |name| > 0 && (AllWhitespace(b.isWhitespace, name)
                             || HasDoubleSpace(Trim(b.isWhitespace, name)))
  {
    var t := Trim(b.isWhitespace, name);
    NoEmptyPieceIffWellSpaced(t);
    if |t| > 0 {
      assert t[0] != ' ' && t[|t| - 1] != ' ';
    }
  }

  /** Two spaces between visible characters survive the trim and make the
      field throw, though the raw string passed the non-empty check. */
  lemma {:induction false} InnerDoubleSpaceThrows(b: Builtins, first: string, last: string)
    requires |first| > 0 && !b.isWhitespace(first[0])
    requires |last| > 0 && !b.isWhitespace(last[|last| - 1])
    ensures CheckName(b, first + "  " + last).Threw?
  {
    var name := first + "  " + last;
    TrimOfTrimmed(b.isWhitespace, name);
    NoEmptyPieceIffWellSpaced(name);
    assert name[|first| + 1] == ' ' && name[|first|] == ' ';
  }

  /** Two space-free words with visible outer ends: each is capitalised. */
  lemma TwoWordName(b: Builtins, first: string, second: string)
    requires |first| > 0 && ' ' !in first && !b.isWhitespace(first[0])
    requires |second| > 0 && ' ' !in second && !b.isWhitespace(second[|second| - 1])
    ensures CheckName(b, first + [' '] + second)
            == Accepted(CapitalizeWord(b, first) + [' '] + CapitalizeWord(b, second))
  {
    var name := first + [' '] + second;
    TrimOfTrimmed(b.isWhitespace, name);
    SplitAfterRun(first, second);
    SplitNoSpace(second);
    assert Split(name) == [first, second];
    var caps := CapitalizeAll(b, [first, second]);
    assert caps == [CapitalizeWord(b, first), CapitalizeWord(b, second)];
    assert Join(caps) == caps[0] + [' '] + caps[1];
  }

  /** A space-free word capitalises like the reference definition. */
  lemma WordInitials(b: Builtins, word: string)
    requires |word| > 0 && ' ' !in word
    ensures CapitalizeWord(b, word) == Initials(b, word)
  {
    var c := CapitalizeWord(b, word);
    forall i | 0 < i < |word|
      ensures c[i] == word[i]
    {
      assert word[i - 1] in word;
    }
  }

  /** The reference definition treats a word, a space and the remainder
      independently, provided the word is non-empty and does not end with a
      space. */
  lemma InitialsAfterRun(b: Builtins, word: string, rest: string)
    requires |word| > 0 && word[|word| - 1] != ' '
    ensures Initials(b, word + [' '] + rest) == Initials(b, word) + [' '] + Initials(b, rest)
  {
    var s := word + [' '] + rest;
    var lhs := Initials(b, s);
    var rhs := Initials(b, word) + [' '] + Initials(b, rest);
    assert |lhs| == |rhs|;
    forall i | 0 <= i < |s|
      ensures lhs[i] == rhs[i]
    {
      if i > |word| {
        assert s[i - 1] == (if i - 1 == |word| then ' ' else rest[i - 1 - |word| - 1]);
      }
    }
  }

  /** Capitalising the pieces and joining them equals the reference
      definition applied to the joined pieces. */
  lemma {:induction false} JoinCapitalizeAll(b: Builtins, pieces: seq<string>)
    requires |pieces| >= 1 && NoEmptyPiece(pieces)
    requires forall i :: 0 <= i < |pieces| ==> ' ' !in pieces[i]
    ensures Join(CapitalizeAll(b, pieces)) == Initials(b, Join(pieces))
    decreases |pieces|
  {
    var caps := CapitalizeAll(b, pieces);
    WordInitials(b, pieces[0]);
    if |pieces| > 1 {
      assert caps[1..] == CapitalizeAll(b, pieces[1..]);
      JoinCapitalizeAll(b, pieces[1..]);
      var w := pieces[0];
      assert w[|w| - 1] in w;
      InitialsAfterRun(b, w, Join(pieces[1..]));
    }
  }

  /** The transformed name is the trimmed name with exactly the characters
      that start it or follow a space upper-cased. */
  lemma {:induction false} TransformMatchesInitials(b: Builtins, name: string)
    requires TransformName(b, name).Capitalized?
    ensures TransformName(b, name).name == Initials(b, Trim(b.isWhitespace, name))
  {
    var t := Trim(b.isWhitespace, name);
    JoinCapitalizeAll(b, Split(t));
  }

  /** Capitalised pieces contain no space when upper-casing cannot make one. */
  lemma CapitalizedPiecesSpaceFree(b: Builtins, pieces: seq<string>)
    requires UpperKeepsNonSpace(b)
    requires NoEmptyPiece(pieces)
    requires forall i :: 0 <= i < |pieces| ==> ' ' !in pieces[i]
    ensures forall i :: 0 <= i < |pieces| ==> ' ' !in CapitalizeAll(b, pieces)[i]
  {
    forall i | 0 <= i < |pieces|
      ensures ' ' !in CapitalizeAll(b, pieces)[i]
    {
      var w := pieces[i];
      assert w[0] in w;
      assert forall j :: 1 <= j < |w| ==> w[j] in w;
    }
  }

  /** Splitting the transformed name gives as many pieces as splitting the
      trimmed input, and piece i is piece i of the input with its first
      character upper-cased and everything after it unchanged. */
  lemma {:induction false} TransformKeepsPieces(b: Builtins, name: string)
    requires UpperKeepsNonSpace(b)
    requires TransformName(b, name).Capitalized?
    ensures var before := Split(Trim(b.isWhitespace, name));
            var after := Split(TransformName(b, name).name);
            && |after| == |before|
            && forall i :: 0 <= i < |after| ==>
                 && |after[i]| == |before[i]| > 0
                 && after[i][0] == b.toUpper(before[i][0])
                 && after[i][1..] == before[i][1..]
  {
    var before := Split(Trim(b.isWhitespace, name));
    CapitalizedPiecesSpaceFree(b, before);
    SplitOfJoin(CapitalizeAll(b, before));
  }

  /** Capitalising capitalised pieces changes nothing when upper-casing is
      idempotent. */
  lemma CapitalizeAllIdempotent(b: Builtins, pieces: seq<string>)
    requires UpperIdempotent(b)
    requires NoEmptyPiece(pieces)
    ensures NoEmptyPiece(CapitalizeAll(b, pieces))
    ensures CapitalizeAll(b, CapitalizeAll(b, pieces)) == CapitalizeAll(b, pieces)
  {
    var caps := CapitalizeAll(b, pieces);
    forall i | 0 <= i < |caps|
      ensures CapitalizeWord(b, caps[i]) == caps[i]
    {
      assert caps[i][1..] == pieces[i][1..];
    }
  }

  /** Under coherent case mapping, transforming a transformed name changes
      nothing. */
  lemma {:induction false} TransformIdempotent(b: Builtins, name: string)
    requires CaseMappingCoherent(b)
    requires TransformName(b, name).Capitalized?
    ensures TransformName(b, TransformName(b, name).name) == TransformName(b, name)
  {
    var t := Trim(b.isWhitespace, name);
    var pieces := Split(t);
    var caps := CapitalizeAll(b, pieces);
    var o := Join(caps);
    NoEmptyPieceIffWellSpaced(t);
    TransformMatchesInitials(b, name);
    assert o == Initials(b, t);
    assert !b.isWhitespace(o[0]);
    assert !b.isWhitespace(o[|o| - 1]);
    TrimOfTrimmed(b.isWhitespace, o);
    CapitalizedPiecesSpaceFree(b, pieces);
    SplitOfJoin(caps);
    CapitalizeAllIdempotent(b, pieces);
  }

  /** The field accepts its own output unchanged. */
  lemma CheckNameIdempotent(b: Builtins, name: string)
    requires CaseMappingCoherent(b)
    requires CheckName(b, name).Accepted?
    ensures CheckName(b, CheckName(b, name).value) == CheckName(b, name)
  {
    var t := Trim(b.isWhitespace, name);
    NoEmptyPieceIffWellSpaced(t);
    TransformMatchesInitials(b, name);
    TransformIdempotent(b, name);
  }

  // Corrected transform: the pieces left empty by leading, trailing or
  // repeated spaces are skipped instead of being read from, and a name that
  // trims to nothing is reported as missing.

  /** The non-empty pieces, in order. */
  function NonEmptyPieces(pieces: seq<string>): (r: seq<string>)
    ensures NoEmptyPiece(r)
    ensures forall i :: 0 <= i < |r| ==> r[i] in pieces
  {
    if |pieces| == 0 then []
    else
      var rest := NonEmptyPieces(pieces[1..]);
      assert forall i :: 0 <= i < |rest| ==> rest[i] in pieces[1..];
      if |pieces[0]| == 0 then rest else [pieces[0]] + rest
  }

  /** Skipping changes nothing when no piece is empty. */
  lemma {:induction false} NonEmptyPiecesIdentity(pieces: seq<string>)
    requires NoEmptyPiece(pieces)
    ensures NonEmptyPieces(pieces) == pieces
    decreases |pieces|
  {
    if |pieces| > 0 {
      var tail := pieces[1..];
      assert NoEmptyPiece(tail);
      NonEmptyPiecesIdentity(tail);
      assert [pieces[0]] + tail == pieces;
    }
  }

  /** Skipping distributes over concatenation: each part is filtered on its
      own and the results stay in order. */
  lemma {:induction false} NonEmptyPiecesConcat(a: seq<string>, c: seq<string>)
    ensures NonEmptyPieces(a + c) == NonEmptyPieces(a) + NonEmptyPieces(c)
    decreases |a|
  {
    if |a| == 0 {
      assert a + c == c;
    } else {
      assert (a + c)[0] == a[0];
      assert (a + c)[1..] == a[1..] + c;
      NonEmptyPiecesConcat(a[1..], c);
    }
  }

  /** Every non-empty piece is kept, as often as it occurs. */
  lemma {:induction false} NonEmptyPiecesCounts(pieces: seq<string>, w: string)
    requires |w| > 0
    ensures multiset(NonEmptyPieces(pieces))[w] == multiset(pieces)[w]
    decreases |pieces|
  {
    if |pieces| > 0 {
      var rest := NonEmptyPieces(pieces[1..]);
      NonEmptyPiecesCounts(pieces[1..], w);
      assert pieces == [pieces[0]] + pieces[1..];
      assert multiset(pieces) == multiset([pieces[0]]) + multiset(pieces[1..]);
      if |pieces[0]| > 0 {
        assert multiset([pieces[0]] + rest) == multiset([pieces[0]]) + multiset(rest);
      } else {
        assert pieces[0] != w;
      }
    }
  }

  /** Skipping keeps a non-empty last piece in its place. */
  lemma {:induction false} NonEmptyPiecesKeepsLast(pieces: seq<string>)
    requires |pieces| > 0 && |pieces[|pieces| - 1]| > 0
    ensures var r := NonEmptyPieces(pieces);
            |r| > 0 && r[|r| - 1] == pieces[|pieces| - 1]
    decreases |pieces|
  {
    var tail := pieces[1..];
    if |tail| > 0 {
      assert tail[|tail| - 1] == pieces[|pieces| - 1];
      NonEmptyPiecesKeepsLast(tail);
    }
  }

  /** Skipping keeps a non-empty first or last piece in its place. */
  lemma {:induction false} NonEmptyPiecesKeeps(pieces: seq<string>)
    ensures |pieces| > 0 && |pieces[0]| > 0 ==>
              |NonEmptyPieces(pieces)| > 0 && NonEmptyPieces(pieces)[0] == pieces[0]
    ensures var r := NonEmptyPieces(pieces);
            |pieces| > 0 && |pieces[|pieces| - 1]| > 0 ==> |r| > 0 && r[|r| - 1] == pieces[|pieces| - 1]
  {
    if |pieces| > 0 && |pieces[|pieces| - 1]| > 0 {
      NonEmptyPiecesKeepsLast(pieces);
    }
  }

  /** The name field with empty pieces skipped: it never throws. */
  function CheckNameCorrected(b: Builtins, name: string): (r: FieldResult<string>)
    ensures !r.Threw?
    ensures r.Rejected? <==> AllWhitespace(b.isWhitespace, name)
    ensures r.Rejected? ==> r.messages == [NameRequired]
  {
    var t := Trim(b.isWhitespace, name);
    if |t| == 0 then Rejected([NameRequired])
    else Accepted(Join(CapitalizeAll(b, NonEmptyPieces(Split(t)))))
  }

  /** Where the field as written throws on two spaces between two words,
      the corrected field keeps both words, capitalised, with one space. */
  lemma {:induction false} InnerDoubleSpaceCorrected(b: Builtins, first: string, last: string)
    requires |first| > 0 && ' ' !in first && !b.isWhitespace(first[0])
    requires |last| > 0 && ' ' !in last && !b.isWhitespace(last[|last| - 1])
    ensures CheckNameCorrected(b, first + "  " + last)
            == Accepted(CapitalizeWord(b, first) + [' '] + CapitalizeWord(b, last))
  {
    var name := first + "  " + last;
    TrimOfTrimmed(b.isWhitespace, name);
    SplitDoubleSpace(first, last);
    var pieces := [first, [], last];
    assert pieces[1..][1..] == [last];
    assert NonEmptyPieces([last]) == [last];
    assert NonEmptyPieces(pieces[1..]) == [last];
    assert NonEmptyPieces(pieces) == [first, last];
    var caps := CapitalizeAll(b, [first, last]);
    assert caps == [CapitalizeWord(b, first), CapitalizeWord(b, last)];
    assert Join(caps) == caps[0] + [' '] + caps[1];
  }

  /** Wherever the field as written accepts or rejects, the corrected field
      gives the same result; it differs only where the original throws. */
  lemma CorrectedAgreesUnlessThrown(b: Builtins, name: string)
    requires !CheckName(b, name).Threw?
    ensures CheckNameCorrected(b, name) == CheckName(b, name)
  {
    var t := Trim(b.isWhitespace, name);
    NoEmptyPieceIffWellSpaced(t);
    if NoEmptyPiece(Split(t)) {
      NonEmptyPiecesIdentity(Split(t));
    }
    if |name| == 0 {
      assert AllWhitespace(b.isWhitespace, name);
    }
  }

  /** Skipping empty pieces keeps the first character of a non-empty first
      piece and the last character of a non-empty last piece. */
  lemma {:induction false} SkippingKeepsOuterPieces(all: seq<string>)
    requires |all| >= 1 && |all[0]| > 0 && |all[|all| - 1]| > 0
    ensures var j := Join(NonEmptyPieces(all));
            var last := all[|all| - 1];
            |j| > 0 && j[0] == all[0][0] && j[|j| - 1] == last[|last| - 1]
  {
    NonEmptyPiecesKeeps(all);
    var pieces := NonEmptyPieces(all);
    JoinStart(pieces);
    JoinEnd(pieces);
  }

  /** Skipping the empty pieces keeps the first and the last character of a
      string that neither starts nor ends with a space. */
  lemma SkippingKeepsEnds(t: string)
    requires |t| > 0 && t[0] != ' ' && t[|t| - 1] != ' '
    ensures var j := Join(NonEmptyPieces(Split(t)));
            |j| > 0 && j[0] == t[0] && j[|j| - 1] == t[|t| - 1]
  {
    FirstPieceEmpty(t);
    LastPieceEmpty(t);
    SkippingKeepsOuterPieces(Split(t));
  }

  /** The corrected output is its own trim and splits back into the
      capitalised pieces it was joined from. */
  lemma CorrectedOutputShape(b: Builtins, name: string)
    requires CaseMappingCoherent(b)
    requires !AllWhitespace(b.isWhitespace, name)
    ensures var t := Trim(b.isWhitespace, name);
            var caps := CapitalizeAll(b, NonEmptyPieces(Split(t)));
            && Split(Join(caps)) == caps
            && Trim(b.isWhitespace, Join(caps)) == Join(caps)
  {
    var t := Trim(b.isWhitespace, name);
    var pieces := NonEmptyPieces(Split(t));
    FirstPieceEmpty(t);
    NonEmptyPiecesKeeps(Split(t));
    var caps := CapitalizeAll(b, pieces);
    var o := Join(caps);
    assert forall i :: 0 <= i < |pieces| ==> ' ' !in pieces[i];
    CapitalizedPiecesSpaceFree(b, pieces);
    SplitOfJoin(caps);
    JoinCapitalizeAll(b, pieces);
    SkippingKeepsEnds(t);
    assert !b.isWhitespace(o[0]);
    assert !b.isWhitespace(o[|o| - 1]);
    TrimOfTrimmed(b.isWhitespace, o);
  }

  /** The corrected field yields a name that splits into non-empty pieces
      only. */
  lemma CorrectedIsWellSpaced(b: Builtins, name: string)
    requires CaseMappingCoherent(b)
    requires CheckNameCorrected(b, name).Accepted?
    ensures WellSpaced(CheckNameCorrected(b, name).value)
  {
    var t := Trim(b.isWhitespace, name);
    var caps := CapitalizeAll(b, NonEmptyPieces(Split(t)));
    CorrectedOutputShape(b, name);
    NoEmptyPieceIffWellSpaced(Join(caps));
  }

  /** A name that is its own trim, splits into non-empty pieces and is not
      changed by capitalising them is accepted by the corrected field
      unchanged. */
  lemma {:induction false} CorrectedOnFixedPoint(b: Builtins, o: string, caps: seq<string>)
    requires |o| > 0 && Trim(b.isWhitespace, o) == o
    requires Split(o) == caps && Join(caps) == o && NoEmptyPiece(caps)
    requires CapitalizeAll(b, caps) == caps
    ensures CheckNameCorrected(b, o) == Accepted(o)
  {
    NonEmptyPiecesIdentity(caps);
  }

  /** The corrected field accepts its own output unchanged. */
  lemma CorrectedIdempotent(b: Builtins, name: string)
    requires CaseMappingCoherent(b)
    requires CheckNameCorrected(b, name).Accepted?
    ensures CheckNameCorrected(b, CheckNameCorrected(b, name).value) == CheckNameCorrected(b, name)
  {
    var t := Trim(b.isWhitespace, name);
    var pieces := NonEmptyPieces(Split(t));
    var caps := CapitalizeAll(b, pieces);
    var o := Join(caps);
    assert CheckNameCorrected(b, name) == Accepted(o);
    CorrectedOutputShape(b, name);
    assert |o| > 0;
    CapitalizeAllIdempotent(b, pieces);
    CorrectedOnFixedPoint(b, o, caps);
  }
}

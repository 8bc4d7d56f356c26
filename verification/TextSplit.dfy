/** Splitting text at a separator, and joining it again. */
module TextSplit {
  type Pieces = seq<string>

  /** The pieces between separators; always at least one. */
  function Split(text: string, sep: char): (pieces: Pieces)
    ensures |pieces| >= 1
  {
    if text == "" then [""]
    else
      var rest := Split(text[1..], sep);
      if text[0] == sep then [""] + rest else [[text[0]] + rest[0]] + rest[1..]
  }

  function Join(pieces: Pieces, sep: char): string
    requires |pieces| >= 1
  {
    if |pieces| == 1 then pieces[0] else pieces[0] + [sep] + Join(pieces[1..], sep)
  }

  /** Splitting distributes over a separator. */
  lemma {:induction false} SplitAtSeparator(x: string, y: string, sep: char)
    ensures Split(x + [sep] + y, sep) == Split(x, sep) + Split(y, sep)
  {
    var whole := x + [sep] + y;
    if x == "" {
      assert whole[1..] == y;
    } else {
      assert whole[1..] == x[1..] + [sep] + y;
      SplitAtSeparator(x[1..], y, sep);
    }
  }

  lemma {:induction false} SplitOnePiece(piece: string, sep: char)
    requires sep !in piece
    ensures Split(piece, sep) == [piece]
  {
    if piece != "" {
      assert piece[0] in piece;
      SplitOnePiece(piece[1..], sep);
      assert [piece[0]] + piece[1..] == piece;
    }
  }

  lemma {:induction false} PiecesHaveNoSeparator(text: string, sep: char)
    ensures forall piece | piece in Split(text, sep) :: sep !in piece && forall c | c in piece :: c in text
  {
    if text != "" {
      PiecesHaveNoSeparator(text[1..], sep);
    }
  }

  lemma {:induction false} JoinSplit(text: string, sep: char)
    ensures Join(Split(text, sep), sep) == text
  {
    if text != "" {
      JoinSplit(text[1..], sep);
      var rest := Split(text[1..], sep);
      var pieces := Split(text, sep);
      if text[0] == sep {
        assert pieces[1..] == rest;
      } else if |rest| > 1 {
        assert pieces[1..] == rest[1..];
      }
    }
  }

  lemma {:induction false} SplitJoin(pieces: Pieces, sep: char)
    requires |pieces| >= 1 && forall piece | piece in pieces :: sep !in piece
    ensures Split(Join(pieces, sep), sep) == pieces
  {
    SplitOnePiece(pieces[0], sep);
    if |pieces| > 1 {
      SplitJoin(pieces[1..], sep);
      SplitAtSeparator(pieces[0], Join(pieces[1..], sep), sep);
    }
  }

  lemma {:induction false} JoinCat(a: Pieces, b: Pieces, sep: char)
    requires |a| >= 1 && |b| >= 1
    ensures Join(a + b, sep) == Join(a, sep) + [sep] + Join(b, sep)
  {
    if |a| == 1 {
      assert (a + b)[1..] == b;
    } else {
      JoinCat(a[1..], b, sep);
      assert (a + b)[1..] == a[1..] + b;
    }
  }
}

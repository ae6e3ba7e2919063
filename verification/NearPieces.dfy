/** The piece index: fixed-length pieces of a text, found within one edit. */
module NearPieces {
  import opened EditDistance

  /** The `k` characters of `text` from `i`. */
  function PieceAt(text: string, i: nat, k: nat): string
    requires i + k <= |text|
  {
    text[i..i + k]
  }

  function Pieces(text: string, k: nat): set<string> {
    set i | 0 <= i <= |text| - k :: PieceAt(text, i, k)
  }

  function OneDeletions(piece: string): set<string> {
    set i | 0 <= i < |piece| :: Without(piece, i)
  }

  function AllOneDeletions(pieces: set<string>): set<string> {
    set piece, shorter | piece in pieces && shorter in OneDeletions(piece) :: shorter
  }

  datatype Index = Index(exact: set<string>, substituted: set<string>, inserted: set<string>) {

    predicate Near(piece: string) {
      || piece in exact
      || piece in inserted
      || exists shorter :: shorter in OneDeletions(piece) && shorter in substituted
    }
  }

  function Build(text: string, k: nat): Index {
    Index(Pieces(text, k), AllOneDeletions(Pieces(text, k)), AllOneDeletions(Pieces(text, k + 1)))
  }

  // --- nothing within one edit is missed -------------------------------------------

  lemma {:induction false} PieceIsIn(text: string, i: nat, k: nat)
    requires i + k <= |text|
    ensures PieceAt(text, i, k) in Pieces(text, k)
  {
  }

  lemma {:induction false} SharedDeletion(piece: string, other: string, i: nat, j: nat, text: string, k: nat)
    requires other in Pieces(text, k) && i < |piece| && j < |other|
    requires Without(piece, i) == Without(other, j)
    ensures Build(text, k).Near(piece)
  {
    assert Without(piece, i) in OneDeletions(piece);
    assert Without(other, j) in OneDeletions(other);
  }

  /** A substring one shorter than the pieces still sits inside a piece. */
  lemma {:induction false} InsidePiece(text: string, i: nat, n: nat) returns (start: nat, at: nat)
    requires i + n <= |text| && n < |text|
    ensures start + n + 1 <= |text| && at <= n
    ensures Without(PieceAt(text, start, n + 1), at) == PieceAt(text, i, n)
  {
    if i + n < |text| {
      start, at := i, n;
    } else {
      start, at := i - 1, 0;
    }
  }

  /** A substring that is the piece less a character is inside a piece of the text. */
  lemma {:induction false} ShorterIsNear(text: string, k: nat, piece: string, i: nat, n: nat)
    requires |piece| == k && i + n <= |text| && k <= |text| && Deletes(piece, PieceAt(text, i, n))
    ensures Build(text, k).Near(piece)
  {
    var at :| 0 <= at < |piece| && PieceAt(text, i, n) == Without(piece, at);
    var start, b := InsidePiece(text, i, n);
    PieceIsIn(text, start, k);
    SharedDeletion(piece, PieceAt(text, start, k), at, b, text, k);
  }

  /** Every piece within one edit of some substring is reported, as long as the text
      holds at least one whole piece; a shorter text reports nothing. */
  lemma {:induction false} NearIsComplete(text: string, k: nat, piece: string, i: nat, n: nat)
    requires |piece| == k && i + n <= |text| && Lev(piece, PieceAt(text, i, n)) <= 1
    ensures Build(text, k).Near(piece) <==> k <= |text|
  {
    var s := PieceAt(text, i, n);
    AtMostOneEdit(piece, s);
    PieceIsIn(text, i, n);
    if k > |text| {
      assert Pieces(text, k) == {} && Pieces(text, k + 1) == {};
    } else if piece == s {
    } else if Deletes(piece, s) {
      ShorterIsNear(text, k, piece, i, n);
    } else if Deletes(s, piece) {
      var at :| 0 <= at < |s| && piece == Without(s, at);
      assert piece in OneDeletions(s);
    } else {
      var at :| 0 <= at < |piece| && s == piece[at := s[at]];
      assert Without(piece, at) == Without(s, at);
      SharedDeletion(piece, s, at, at, text, k);
    }
  }

  // --- nothing further than two edits is reported ------------------------------------

  lemma {:induction false} TwoEdits(p: string, d: string, s: string)
    requires d in OneDeletions(p) && d in OneDeletions(s)
    ensures Lev(p, s) <= 2
  {
    assert OneEdit(p, d) && OneEdit(d, s);
    LevIsLowerBound([p, d, s]);
  }

  lemma {:induction false} PieceStart(text: string, k: nat, piece: string) returns (i: nat)
    requires piece in Pieces(text, k)
    ensures i + k <= |text| && piece == PieceAt(text, i, k)
  {
    i :| 0 <= i <= |text| - k && piece == PieceAt(text, i, k);
  }

  /** Whatever is reported lies within two edits of some substring. */
  lemma {:induction false} NearIsSound(text: string, k: nat, piece: string) returns (i: nat, n: nat)
    requires Build(text, k).Near(piece)
    ensures i + n <= |text| && Lev(piece, PieceAt(text, i, n)) <= 2
  {
    var index := Build(text, k);
    if piece in index.exact {
      i := PieceStart(text, k, piece);
      n := k;
      LevSelf(piece);
    } else if piece in index.inserted {
      var other :| other in Pieces(text, k + 1) && piece in OneDeletions(other);
      i := PieceStart(text, k + 1, other);
      n := k + 1;
      AtMostOneEdit(piece, other);
    } else {
      var shorter :| shorter in OneDeletions(piece) && shorter in index.substituted;
      var other :| other in Pieces(text, k) && shorter in OneDeletions(other);
      i := PieceStart(text, k, other);
      n := k;
      TwoEdits(piece, shorter, other);
    }
  }

  /** Two edits is reached: a piece can share a one-deletion taken at another place. */
  lemma {:induction false} TwoEditsCanBeReported()
    ensures Build("abcde", 5).Near("acdxe")
    ensures forall i: nat, n: nat :: i + n <= 5 ==> Lev("acdxe", PieceAt("abcde", i, n)) >= 2
  {
    var text, piece := "abcde", "acdxe";
    assert text == PieceAt(text, 0, 5);
    PieceIsIn(text, 0, 5);
    assert Without(piece, 3) == "acde" == Without(text, 1);
    SharedDeletion(piece, text, 3, 1, text, 5);
    forall i: nat, n: nat | i + n <= 5
      ensures Lev(piece, PieceAt(text, i, n)) >= 2
    {
      NoSingleEdit(i, n);
      AtMostOneEdit(piece, PieceAt(text, i, n));
    }
  }

  lemma {:induction false} NoSingleEdit(i: nat, n: nat)
    requires i + n <= 5
    ensures "acdxe" != PieceAt("abcde", i, n) && !OneEdit("acdxe", PieceAt("abcde", i, n))
  {
    var s, p := PieceAt("abcde", i, n), "acdxe";
    assert 'x' !in s && p[3] == 'x';
    forall at | 0 <= at < |p|
      ensures s != Without(p, at)
    {
      var w := Without(p, at);
      if at == 3 {
        assert w[0] == 'a' && w[1] == 'c';
      } else {
        assert w[if at < 3 then 2 else 3] == 'x';
      }
    }
    forall at | 0 <= at < |p| && |s| == |p|
      ensures s != p[at := s[at]]
    {
      assert s[1] != p[1] && s[2] != p[2];
    }
    assert !Deletes(s, p);
  }
}

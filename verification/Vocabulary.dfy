/** The word list that the language model is built with. */
module Vocabulary {
  import opened Tokenizer

  /** Ten words of the list. */
  function Part(k: nat): (words: seq<string>)
    requires k < 6
    ensures |words| == 10
  {
    match k
    case 0 => ["<pad>", "<unk>", "<s>", "</s>", "I", "you", "we", "they", "it", "this"]
    case 1 => ["that", "is", "are", "was", "help", "code", "kernel", "driver", "game", "gaming"]
    case 2 => ["input", "usb", "keyboard", "mouse", "make", "add", "fix", "error", "compile", "run"]
    case 3 => ["yes", "no", "ok", "thanks", "(", ")", "{", "}", "[", "]"]
    case 4 => [";", ",", ".", "=", "+", "-", "*", "/", "int", "char"]
    case _ => ["void", "struct", "typedef", "return", "if", "else", "for", "while", "ZEBX", "OS"]
  }

  function WordAt(i: nat): string
    requires i < 60
  {
    Part(i / 10)[i % 10]
  }

  function BuiltIn(): (words: seq<string>)
    ensures |words| == 60
  {
    seq(60, i requires 0 <= i < 60 => WordAt(i))
  }

  /** A number that no two words of the list share. */
  function Mark(word: string): int {
    if word == "" then 0
    else |word| + 13 * (word[0] as int) + (word[|word| / 2] as int) + 7 * (word[|word| - 1] as int)
  }

  function Marks(k: nat): (marks: seq<int>)
    requires k < 6
    ensures |marks| == 10
  {
    match k
    case 0 => [1316, 1329, 1332, 1333, 1534, 2506, 2357, 2460, 2295, 2422]
    case 1 => [2421, 2287, 2085, 2452, 2248, 2098, 2263, 2222, 2159, 2171]
    case 2 => [2294, 2325, 2210, 2246, 2235, 2064, 2274, 2230, 2113, 2372]
    case 3 => [2482, 2320, 2301, 2429, 841, 862, 2584, 2626, 1912, 1954]
    case 4 => [1240, 925, 967, 1282, 904, 946, 883, 988, 2290, 2186]
    case _ => [2343, 2430, 2330, 2375, 2183, 2139, 2238, 2364, 1856, 1693]
  }

  /** Where in the list the word with this number is. */
  function Position(mark: int): int {
    if mark == 1316 then 0 else if mark == 1329 then 1 else if mark == 1332 then 2 else if mark == 1333 then 3 else
    if mark == 1534 then 4 else
    if mark == 2506 then 5 else if mark == 2357 then 6 else if mark == 2460 then 7 else if mark == 2295 then 8 else
    if mark == 2422 then 9 else
    if mark == 2421 then 10 else if mark == 2287 then 11 else if mark == 2085 then 12 else if mark == 2452 then 13 else
    if mark == 2248 then 14 else
    if mark == 2098 then 15 else if mark == 2263 then 16 else if mark == 2222 then 17 else if mark == 2159 then 18 else
    if mark == 2171 then 19 else
    MiddlePosition(mark)
  }

  function MiddlePosition(mark: int): int {
    if mark == 2294 then 20 else if mark == 2325 then 21 else if mark == 2210 then 22 else if mark == 2246 then 23 else
    if mark == 2235 then 24 else
    if mark == 2064 then 25 else if mark == 2274 then 26 else if mark == 2230 then 27 else if mark == 2113 then 28 else
    if mark == 2372 then 29 else
    if mark == 2482 then 30 else if mark == 2320 then 31 else if mark == 2301 then 32 else if mark == 2429 then 33 else
    if mark == 841 then 34 else
    if mark == 862 then 35 else if mark == 2584 then 36 else if mark == 2626 then 37 else if mark == 1912 then 38 else
    if mark == 1954 then 39 else
    LastPosition(mark)
  }

  function LastPosition(mark: int): int {
    if mark == 1240 then 40 else if mark == 925 then 41 else if mark == 967 then 42 else if mark == 1282 then 43 else
    if mark == 904 then 44 else
    if mark == 946 then 45 else if mark == 883 then 46 else if mark == 988 then 47 else if mark == 2290 then 48 else
    if mark == 2186 then 49 else
    if mark == 2343 then 50 else if mark == 2430 then 51 else if mark == 2330 then 52 else if mark == 2375 then 53 else
    if mark == 2183 then 54 else
    if mark == 2139 then 55 else if mark == 2238 then 56 else if mark == 2364 then 57 else if mark == 1856 then 58 else
    if mark == 1693 then 59 else
    60
  }

  lemma PartMarked(k: nat, i: nat)
    requires k < 6 && i < 10
    ensures Part(k)[i] != "" && SpaceFree(Part(k)[i]) && Mark(Part(k)[i]) == Marks(k)[i]
  {
    match k
    case 0 => Part0Marked(i);
    case 1 => Part1Marked(i);
    case 2 => Part2Marked(i);
    case 3 => Part3Marked(i);
    case 4 => Part4Marked(i);
    case _ => Part5Marked(i);
  }

  lemma Part0Marked(i: nat)
    requires i < 10
    ensures Part(0)[i] != "" && SpaceFree(Part(0)[i]) && Mark(Part(0)[i]) == Marks(0)[i]
  {
  }

  lemma Part1Marked(i: nat)
    requires i < 10
    ensures Part(1)[i] != "" && SpaceFree(Part(1)[i]) && Mark(Part(1)[i]) == Marks(1)[i]
  {
  }

  lemma Part2Marked(i: nat)
    requires i < 10
    ensures Part(2)[i] != "" && SpaceFree(Part(2)[i]) && Mark(Part(2)[i]) == Marks(2)[i]
  {
  }

  lemma Part3Marked(i: nat)
    requires i < 10
    ensures Part(3)[i] != "" && SpaceFree(Part(3)[i]) && Mark(Part(3)[i]) == Marks(3)[i]
  {
  }

  lemma Part4Marked(i: nat)
    requires i < 10
    ensures Part(4)[i] != "" && SpaceFree(Part(4)[i]) && Mark(Part(4)[i]) == Marks(4)[i]
  {
  }

  lemma Part5Marked(i: nat)
    requires i < 10
    ensures Part(5)[i] != "" && SpaceFree(Part(5)[i]) && Mark(Part(5)[i]) == Marks(5)[i]
  {
  }

  lemma FirstPlaced(k: nat, i: nat)
    requires k < 2 && i < 10
    ensures Position(Marks(k)[i]) == 10 * k + i
  {
    hide MiddlePosition;
  }

  lemma MiddlePlaced(k: nat, i: nat)
    requires 2 <= k < 4 && i < 10
    ensures Position(Marks(k)[i]) == 10 * k + i
  {
    hide LastPosition;
  }

  lemma LastPlaced(k: nat, i: nat)
    requires 4 <= k < 6 && i < 10
    ensures Position(Marks(k)[i]) == 10 * k + i
  {
    hide Position, MiddlePosition;
    NotBefore(k, i);
  }

  lemma NotBefore(k: nat, i: nat)
    requires 4 <= k < 6 && i < 10
    ensures Position(Marks(k)[i]) == LastPosition(Marks(k)[i])
  {
    hide LastPosition;
  }

  lemma MarksPlaced(k: nat, i: nat)
    requires k < 6 && i < 10
    ensures Position(Marks(k)[i]) == 10 * k + i
  {
    hide Position, Marks;
    if k < 2 {
      FirstPlaced(k, i);
    } else if k < 4 {
      MiddlePlaced(k, i);
    } else {
      LastPlaced(k, i);
    }
  }

  lemma BuiltInSeparable()
    ensures Separable(BuiltIn())
  {
    hide Part, Position, Mark, Marks, SpaceFree;
    forall i: nat | i < 60
      ensures BuiltIn()[i] != "" && SpaceFree(BuiltIn()[i]) && Position(Mark(BuiltIn()[i])) == i
    {
      PartMarked(i / 10, i % 10);
      MarksPlaced(i / 10, i % 10);
    }
    forall i, j | 0 <= i < j < 60
      ensures BuiltIn()[i] != BuiltIn()[j]
    {
      assert Position(Mark(BuiltIn()[i])) == i && Position(Mark(BuiltIn()[j])) == j;
    }
  }

  // ----- what is left of an unknown word -----

  /** Not a part of "<unk>", unless all of it. */
  predicate Apart(word: string) {
    && word != ""
    && (word[0] == '<' ==> |word| >= 2 && (word[1] == 'u' ==> |word| == 5))
    && (word[0] == 'u' ==> |word| >= 2 && word[1] != 'n')
    && (word[0] == 'n' ==> |word| >= 2 && word[1] != 'k')
    && (word[0] == 'k' ==> |word| >= 2)
  }

  lemma PartApart(k: nat, i: nat)
    requires k < 6 && i < 10
    ensures Apart(Part(k)[i])
  {
    match k
    case 0 => Part0Apart(i);
    case 1 | 2 =>
    case 3 | 4 =>
    case _ =>
  }

  lemma Part0Apart(i: nat)
    requires i < 10
    ensures Apart(Part(0)[i])
  {
  }

  /** The letters of the unknown word from `a` to `b`. */
  function Piece(a: nat, b: nat): string
    requires a <= b <= 5
  {
    "<unk>"[a..b]
  }

  lemma UnknownWord()
    ensures BuiltIn()[UNKNOWN_ID] == "<unk>"
  {
    assert WordAt(1) == Part(0)[1];
  }

  lemma NotInPiece(word: string, a: nat, b: nat)
    requires Apart(word) && a < b <= 4
    ensures !(word <= Piece(a, b))
  {
    var piece := Piece(a, b);
    assert piece[0] == "<unk>"[a] && (b - a >= 2 ==> piece[1] == "<unk>"[a + 1]);
  }

  lemma NoWordStarts(a: nat, b: nat)
    requires a < b <= 4
    ensures Best(BuiltIn(), Piece(a, b), 60) < 0
  {
    hide Part, Apart;
    var best := Best(BuiltIn(), Piece(a, b), 60);
    if best >= 0 {
      PartApart(best / 10, best % 10);
      NotInPiece(BuiltIn()[best], a, b);
    }
  }

  function Ones(n: nat): seq<nat> { seq(n, _ => UNKNOWN_ID) }

  function Least(a: nat, b: nat): nat { if a < b then a else b }

  lemma PieceFront(a: nat, b: nat, max: nat)
    requires a < b <= 4 && max > 0
    ensures Ids(Tokens(BuiltIn(), Piece(a, b), max)) == [UNKNOWN_ID] + Ids(Tokens(BuiltIn(), Piece(a + 1, b), max - 1))
  {
    hide Best, BuiltIn;
    NoWordStarts(a, b);
    NextPiece(a, b);
    hide Piece;
    UnknownFront(BuiltIn(), Piece(a, b), max);
  }

  lemma NextPiece(a: nat, b: nat)
    requires a < b <= 4
    ensures |Piece(a, b)| > 0 && !Space(Piece(a, b)[0]) && Piece(a, b)[1..] == Piece(a + 1, b)
  {
    assert Piece(a, b)[0] == "<unk>"[a];
  }

  /** A character that no word starts at is a token for itself. */
  lemma UnknownFront(vocab: seq<string>, text: string, max: nat)
    requires text != "" && !Space(text[0]) && max > 0 && Best(vocab, text, |vocab|) < 0
    ensures Ids(Tokens(vocab, text, max)) == [UNKNOWN_ID] + Ids(Tokens(vocab, text[1..], max - 1))
  {
    hide Best;
    assert Tokens(vocab, text, max) == [FirstToken(vocab, text)] + Tokens(vocab, text[1..], max - 1);
  }

  lemma NothingLeft(a: nat, b: nat, max: nat)
    requires a <= b <= 4 && (a == b || max == 0)
    ensures Tokens(BuiltIn(), Piece(a, b), max) == []
  {
    hide BuiltIn, Best;
  }

  /** Each letter of an unknown word that is not there whole is an unknown character. */
  lemma {:induction false} PieceTokens(a: nat, b: nat, max: nat)
    requires a <= b <= 4
    ensures Ids(Tokens(BuiltIn(), Piece(a, b), max)) == Ones(Least(b - a, max))
    decreases b - a
  {
    hide Tokens, Piece, BuiltIn;
    if a == b || max == 0 {
      NothingLeft(a, b, max);
    } else {
      PieceFront(a, b, max);
      PieceTokens(a + 1, b, max - 1);
    }
  }

  /** The text ends `n` letters after the start of the first of as many unknown words as are left to be read. */
  predicate EndsInUnknown(ids: seq<nat>, room: nat, max: nat, m: nat, n: nat) {
    && m < |ids| && m < max && 1 <= n <= 4 && AllIn(BuiltIn(), ids[..m])
    && WordStart(BuiltIn(), ids, m) + n == room && ids[m..] == Ones(Least(n, max - m))
  }

  /** For the built-in list, the cut texts that give the ids back. */
  lemma BuiltInFromCut(ids: seq<nat>, room: nat, max: nat)
    ensures BackFromCut(BuiltIn(), ids, room, max) <==> exists m: nat, n: nat :: EndsInUnknown(ids, room, max, m, n)
  {
    hide WordStart, AllIn, BuiltIn, Tokens;
    UnknownWord();
    forall m: nat, n: nat | m < |ids|
      ensures EndsInWord(BuiltIn(), ids, room, m, n) && RestBack(BuiltIn(), ids, m, n, max) <==>
        EndsInUnknown(ids, room, max, m, n)
    {
      SpellingOf(BuiltIn(), ids[m]);
      if n < 5 && m <= max {
        PieceTokens(0, n, max - m);
        assert "<unk>"[..n] == Piece(0, n);
      }
      assert ids[m..][0] == ids[m];
    }
  }

  /** Cut after its first letter, the unknown word comes back. */
  lemma CutUnknown(max: nat)
    requires max > 0
    ensures Joined(BuiltIn(), [UNKNOWN_ID]) == "<unk>"
    ensures Ids(Tokens(BuiltIn(), "<", max)) == [UNKNOWN_ID]
  {
    hide Tokens, Part;
    UnknownWord();
    PieceTokens(0, 1, max);
    assert Piece(0, 1) == "<";
    assert [UNKNOWN_ID][..0] == [];
  }
}

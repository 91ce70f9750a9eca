/** The greedy tokenizer of the language model, and the decoder. */
module Tokenizer {
  const MAX_TOKENS: nat := 4096
  const PREVIEW: nat := 31
  const UNKNOWN_ID: nat := 1

  datatype TokenType = Unknown | Word

  datatype Token = Token(id: nat, kind: TokenType, text: string)

  predicate Space(c: char) {
    c == ' ' || c == '\t' || c == '\n' || c == '\r'
  }

  predicate SpaceFree(s: string) {
    forall k :: 0 <= k < |s| ==> !Space(s[k])
  }

  /** Among the first n words the first of the longest that the text starts with; none if all such are empty. */
  function Best(vocab: seq<string>, text: string, n: nat): (best: int)
    requires n <= |vocab|
    ensures best < n && (best >= 0 ==> vocab[best] != "" && vocab[best] <= text)
    ensures forall j :: 0 <= j < n && vocab[j] != "" && vocab[j] <= text ==> 0 <= best && |vocab[j]| <= |vocab[best]|
    ensures forall j :: 0 <= j < best && vocab[j] <= text ==> |vocab[j]| < |vocab[best]|
  {
    if n == 0 then -1
    else
      var b := Best(vocab, text, n - 1);
      if |vocab[n - 1]| > (if b < 0 then 0 else |vocab[b]|) && vocab[n - 1] <= text then n - 1 else b
  }

  /** How much of the text the first token takes: a word, or one unknown character. */
  function FirstLength(vocab: seq<string>, text: string): (length: nat)
    requires text != ""
    ensures 1 <= length <= |text|
  {
    var best := Best(vocab, text, |vocab|);
    if best < 0 then 1 else |vocab[best]|
  }

  function FirstToken(vocab: seq<string>, text: string): Token
    requires text != ""
  {
    var best := Best(vocab, text, |vocab|);
    if best < 0 then Token(UNKNOWN_ID, Unknown, text[..1])
    else Token(best, Word, text[..if |vocab[best]| < PREVIEW then |vocab[best]| else PREVIEW])
  }

  /** The tokens of a text, at most max of them. */
  function Tokens(vocab: seq<string>, text: string, max: nat): seq<Token> {
    if text == "" || max == 0 then []
    else if Space(text[0]) then Tokens(vocab, text[1..], max)
    else [FirstToken(vocab, text)] + Tokens(vocab, text[FirstLength(vocab, text)..], max - 1)
  }

  function Ids(tokens: seq<Token>): seq<nat> {
    seq(|tokens|, i requires 0 <= i < |tokens| => tokens[i].id)
  }

  function Spelling(vocab: seq<string>, id: nat): string
    requires |vocab| > UNKNOWN_ID
  {
    vocab[if id < |vocab| then id else UNKNOWN_ID]
  }

  /** The words of the ids with a space between; none is put before the first letter. */
  function Joined(vocab: seq<string>, ids: seq<nat>): string
    requires |vocab| > UNKNOWN_ID
  {
    if ids == [] then ""
    else
      var before := Joined(vocab, ids[..|ids| - 1]);
      before + (if before == "" then "" else " ") + Spelling(vocab, ids[|ids| - 1])
  }

  predicate Words(vocab: seq<string>) {
    forall i :: 0 <= i < |vocab| ==> vocab[i] != "" && SpaceFree(vocab[i])
  }

  predicate Distinct(vocab: seq<string>) {
    forall i, j :: 0 <= i < j < |vocab| ==> vocab[i] != vocab[j]
  }

  /** Distinct words, none empty, none with a space. */
  predicate Separable(vocab: seq<string>) {
    |vocab| > UNKNOWN_ID && Words(vocab) && Distinct(vocab)
  }

  /** A space or the end of the text closes the longest match. */
  lemma BestStopsAtSpace(vocab: seq<string>, id: nat, text: string)
    requires Separable(vocab) && id < |vocab| && vocab[id] <= text
    requires |text| > |vocab[id]| ==> Space(text[|vocab[id]|])
    ensures Best(vocab, text, |vocab|) == id
  {
    var best := Best(vocab, text, |vocab|);
    assert SpaceFree(vocab[best]);
    assert vocab[best] == text[..|vocab[best]|];
    assert vocab[id] == text[..|vocab[id]|];
    if |vocab[best]| > |vocab[id]| {
      assert false;
    }
  }

  lemma SpellingIsWord(vocab: seq<string>, id: nat)
    requires Separable(vocab)
    ensures Spelling(vocab, id) != "" && !Space(Spelling(vocab, id)[0])
  {
    assert SpaceFree(Spelling(vocab, id));
  }

  lemma JoinedBack(vocab: seq<string>, ids: seq<nat>)
    requires |vocab| > UNKNOWN_ID && ids != []
    ensures |ids| == 1 ==> Joined(vocab, ids) == Spelling(vocab, ids[0])
    ensures |ids| > 1 && Joined(vocab, ids[..|ids| - 1]) != "" ==>
      Joined(vocab, ids) == Joined(vocab, ids[..|ids| - 1]) + (" " + Spelling(vocab, ids[|ids| - 1]))
  {
  }

  /** The same text from the front. */
  lemma {:induction false} JoinedFront(vocab: seq<string>, ids: seq<nat>)
    requires Separable(vocab) && ids != []
    ensures Joined(vocab, ids) == Spelling(vocab, ids[0]) + if |ids| == 1 then "" else " " + Joined(vocab, ids[1..])
    ensures Joined(vocab, ids) != ""
  {
    hide Words, Distinct, Spelling, Joined;
    SpellingIsWord(vocab, ids[|ids| - 1]);
    JoinedBack(vocab, ids);
    if |ids| > 1 {
      var most, tail, first, last :=
        ids[..|ids| - 1], ids[1..], Spelling(vocab, ids[0]), Spelling(vocab, ids[|ids| - 1]);
      JoinedFront(vocab, most);
      JoinedBack(vocab, tail);
      if |ids| > 2 {
        JoinedFront(vocab, most[1..]);
        assert tail[..|tail| - 1] == most[1..];
        var mid := Joined(vocab, most[1..]);
        assert first + (" " + mid) + (" " + last) == first + (" " + (mid + (" " + last)));
      }
    }
  }

  function Known(vocab: seq<string>, ids: seq<nat>): seq<nat> {
    seq(|ids|, i requires 0 <= i < |ids| => if ids[i] < |vocab| then ids[i] else UNKNOWN_ID)
  }

  lemma KnownFront(vocab: seq<string>, ids: seq<nat>)
    requires ids != []
    ensures Known(vocab, ids) == Known(vocab, ids[..1]) + Known(vocab, ids[1..])
  {
  }

  /** One word and the space after it are one token. */
  lemma TokenOfWord(vocab: seq<string>, id: nat, rest: string, max: nat)
    requires Separable(vocab) && id < |vocab| && max > 0
    requires rest == "" || Space(rest[0])
    ensures Ids(Tokens(vocab, vocab[id] + rest, max)) ==
      [id] + Ids(Tokens(vocab, if rest == "" then "" else rest[1..], max - 1))
  {
    hide Best;
    var text := vocab[id] + rest;
    SpellingIsWord(vocab, id);
    BestStopsAtSpace(vocab, id, text);
    assert text[|vocab[id]|..] == rest;
    assert text[0] == vocab[id][0];
  }

  /** The front of the joined words is the first word, closed by a space or by the end. */
  lemma TokensOfJoined(vocab: seq<string>, ids: seq<nat>, max: nat)
    requires Separable(vocab) && ids != [] && max > 0
    ensures Ids(Tokens(vocab, Joined(vocab, ids), max)) ==
      Known(vocab, ids[..1]) + Ids(Tokens(vocab, Joined(vocab, ids[1..]), max - 1))
  {
    hide Words, Distinct, Tokens;
    var id := if ids[0] < |vocab| then ids[0] else UNKNOWN_ID;
    var rest := if |ids| == 1 then "" else " " + Joined(vocab, ids[1..]);
    JoinedFront(vocab, ids);
    TokenOfWord(vocab, id, rest, max);
    assert |ids| > 1 ==> rest[1..] == Joined(vocab, ids[1..]);
  }

  /** Decoding and encoding again gives each id of the vocabulary back, and the unknown id for any other. */
  lemma {:induction false} EncodeDecode(vocab: seq<string>, ids: seq<nat>, max: nat)
    requires Separable(vocab) && |ids| <= max
    ensures Ids(Tokens(vocab, Joined(vocab, ids), max)) == Known(vocab, ids)
  {
    hide Separable, Tokens;
    if ids == [] {
      NoTokens(vocab, max);
    } else {
      hide Joined, Known, Ids;
      TokensOfJoined(vocab, ids, max);
      EncodeDecode(vocab, ids[1..], max - 1);
      KnownFront(vocab, ids);
    }
  }

  /** Encoding undoes decoding exactly for ids of the vocabulary. */
  lemma EncodeDecodeIff(vocab: seq<string>, ids: seq<nat>, max: nat)
    requires Separable(vocab) && |ids| <= max
    ensures Ids(Tokens(vocab, Joined(vocab, ids), max)) == ids <==> forall i :: 0 <= i < |ids| ==> ids[i] < |vocab|
  {
    EncodeDecode(vocab, ids, max);
    var again := Ids(Tokens(vocab, Joined(vocab, ids), max));
    if i :| 0 <= i < |ids| && ids[i] >= |vocab| {
      assert again[i] == UNKNOWN_ID;
    }
  }

  function Letters(text: string): string {
    if text == "" then "" else (if Space(text[0]) then "" else text[..1]) + Letters(text[1..])
  }

  predicate AllKnown(vocab: seq<string>, tokens: seq<Token>) {
    forall i :: 0 <= i < |tokens| ==> tokens[i].kind.Word? ==> tokens[i].id < |vocab|
  }

  function Spelled(vocab: seq<string>, tokens: seq<Token>): string
    requires AllKnown(vocab, tokens)
  {
    if tokens == [] then ""
    else (if tokens[0].kind.Word? then vocab[tokens[0].id] else tokens[0].text) + Spelled(vocab, tokens[1..])
  }

  lemma {:induction false} LettersOfWord(word: string, text: string)
    requires SpaceFree(word)
    ensures Letters(word + text) == word + Letters(text)
  {
    if word == "" {
      assert word + text == text;
    } else {
      assert (word + text)[1..] == word[1..] + text;
      LettersOfWord(word[1..], text);
    }
  }

  lemma FirstSpells(vocab: seq<string>, text: string)
    requires text != "" && !Space(text[0]) && forall i :: 0 <= i < |vocab| ==> SpaceFree(vocab[i])
    ensures var token, word := FirstToken(vocab, text), text[..FirstLength(vocab, text)];
      && SpaceFree(word) && (token.kind.Word? ==> token.id < |vocab|)
      && word == if token.kind.Word? then vocab[token.id] else token.text
  {
  }

  /** Of any text the tokens spell every letter in order, up to where the tokens run out. */
  lemma {:induction false} TokensSpellText(vocab: seq<string>, text: string, max: nat)
    requires forall i :: 0 <= i < |vocab| ==> SpaceFree(vocab[i])
    ensures |Tokens(vocab, text, max)| <= max
    ensures AllKnown(vocab, Tokens(vocab, text, max))
    ensures Spelled(vocab, Tokens(vocab, text, max)) <= Letters(text)
    ensures |Tokens(vocab, text, max)| < max ==> Spelled(vocab, Tokens(vocab, text, max)) == Letters(text)
    decreases |text|
  {
    if text == "" || max == 0 {
    } else {
      if Space(text[0]) {
        TokensSpellText(vocab, text[1..], max);
      } else {
        hide Best, FirstToken, FirstLength, Letters, Spelled, AllKnown, SpaceFree;
        var length := FirstLength(vocab, text);
        FirstSpells(vocab, text);
        TokensSpellText(vocab, text[length..], max - 1);
        SpelledFront(vocab, FirstToken(vocab, text), Tokens(vocab, text[length..], max - 1), text[..length]);
        assert text == text[..length] + text[length..];
        LettersOfWord(text[..length], text[length..]);
        PrefixUnder(text[..length], Spelled(vocab, Tokens(vocab, text[length..], max - 1)), Letters(text[length..]));
      }
    }
  }

  lemma SpelledFront(vocab: seq<string>, token: Token, tokens: seq<Token>, word: string)
    requires AllKnown(vocab, tokens) && (token.kind.Word? ==> token.id < |vocab|)
    requires word == if token.kind.Word? then vocab[token.id] else token.text
    ensures AllKnown(vocab, [token] + tokens) && Spelled(vocab, [token] + tokens) == word + Spelled(vocab, tokens)
  {
    assert ([token] + tokens)[1..] == tokens;
  }

  lemma PrefixUnder(word: string, s: string, t: string)
    requires s <= t
    ensures word + s <= word + t
  {
    assert word + t == (word + s) + t[|s|..];
  }

  method VocabFindLongest(vocab: seq<string>, text: string) returns (id: nat, length: nat)
    ensures var best := Best(vocab, text, |vocab|);
            if best < 0 then id == UNKNOWN_ID && length == 0 else id == best && length == |vocab[best]|
  {
    var best: int := -1;
    length := 0;
    for i := 0 to |vocab|
      invariant best == Best(vocab, text, i) && length == if best < 0 then 0 else |vocab[best]|
    {
      if |vocab[i]| == 0 || |vocab[i]| <= length {
        continue;
      }
      if vocab[i] <= text {
        best, length := i, |vocab[i]|;
      }
    }
    if best < 0 {
      return UNKNOWN_ID, 0;
    }
    id := best;
  }

  /** The turn of the tokenizer's loop: the token at the start of a text, and how far it reaches. */
  method NextToken(vocab: seq<string>, text: string) returns (token: Token, length: nat)
    requires text != ""
    ensures token == FirstToken(vocab, text) && length == FirstLength(vocab, text)
  {
    var id, wordLength := VocabFindLongest(vocab, text);
    if wordLength == 0 {
      return Token(UNKNOWN_ID, Unknown, text[..1]), 1;
    }
    var preview := if wordLength >= PREVIEW then PREVIEW else wordLength;
    return Token(id, Word, text[..preview]), wordLength;
  }

  method Tokenize(vocab: seq<string>, text: string, tokens: array<Token>, max: nat) returns (count: nat)
    requires max <= tokens.Length
    modifies tokens
    ensures count <= max && tokens[..count] == Tokens(vocab, text, max) && tokens[count..] == old(tokens[count..])
  {
    hide Best, FirstToken, FirstLength;
    count := 0;
    var p := 0;
    while p < |text| && count < max
      invariant p <= |text| && count <= max && tokens[count..] == old(tokens[count..])
      invariant tokens[..count] + Tokens(vocab, text[p..], max - count) == Tokens(vocab, text, max)
      decreases |text| - p
    {
      while p < |text| && Space(text[p])
        invariant p <= |text|
        invariant tokens[..count] + Tokens(vocab, text[p..], max - count) == Tokens(vocab, text, max)
      {
        assert text[p..][1..] == text[p + 1..];
        p := p + 1;
      }
      if p == |text| {
        break;
      }
      ghost var before, rest := tokens[..count], text[p..];
      var token, length := NextToken(vocab, text[p..]);
      tokens[count] := token;
      count, p := count + 1, p + length;
      assert tokens[..count] == before + [token];
      assert text[p..] == rest[length..];
    }
  }

  method Encode(vocab: seq<string>, text: string, ids: array<nat>, max: nat) returns (count: nat)
    requires max <= MAX_TOKENS && max <= ids.Length
    modifies ids
    ensures count <= max && ids[..count] == Ids(Tokens(vocab, text, max)) && ids[count..] == old(ids[count..])
  {
    var tokens := new Token[MAX_TOKENS](_ => Token(0, Unknown, ""));
    count := Tokenize(vocab, text, tokens, max);
    for i := 0 to count
      invariant tokens[..count] == Tokens(vocab, text, max)
      invariant forall k :: 0 <= k < i ==> ids[k] == tokens[k].id
      invariant forall k :: i <= k < ids.Length ==> ids[k] == old(ids[k])
    {
      ids[i] := tokens[i].id;
    }
    assert ids[..count] == Ids(tokens[..count]);
  }

  /** What is written of all that was to be, in a buffer with so much room. */
  predicate Fits(written: string, all: string, room: nat) {
    written == all[..if |all| < room then |all| else room]
  }

  lemma JoinedNone(vocab: seq<string>, ids: seq<nat>)
    requires |vocab| > UNKNOWN_ID
    ensures Joined(vocab, ids[..0]) == ""
  {
  }

  lemma JoinedMore(vocab: seq<string>, ids: seq<nat>, i: nat)
    requires |vocab| > UNKNOWN_ID && i < |ids|
    ensures Joined(vocab, ids[..i + 1]) ==
      Joined(vocab, ids[..i]) + (if Joined(vocab, ids[..i]) == "" then "" else " ") + Spelling(vocab, ids[i])
  {
    assert ids[..i + 1][..i] == ids[..i];
  }

  lemma {:induction false} JoinedGrows(vocab: seq<string>, ids: seq<nat>, i: nat)
    requires |vocab| > UNKNOWN_ID && i <= |ids|
    ensures Joined(vocab, ids[..i]) <= Joined(vocab, ids)
    decreases |ids|
  {
    if i < |ids| {
      JoinedGrows(vocab, ids[..|ids| - 1], i);
      assert ids[..|ids| - 1][..i] == ids[..i];
    } else {
      assert ids[..i] == ids;
    }
  }

  /** The copying of one word: after all that was to be written before, the word, as far as there is room. */
  method CopyWord(word: string, text: array<char>, start: nat, room: nat, ghost before: string) returns (pos: nat)
    requires start <= room < text.Length && Fits(text[..start], before, room)
    modifies text
    ensures start <= pos <= room && Fits(text[..pos], before + word, room)
    ensures forall k :: pos <= k < text.Length ==> text[k] == old(text[k])
  {
    pos := start;
    var j := 0;
    while j < |word| && pos < room
      invariant j <= |word| && start <= pos <= room
      invariant pos == if |before| + j < room then |before| + j else room
      invariant text[..pos] == (before + word[..j])[..pos]
      invariant forall k :: pos <= k < text.Length ==> text[k] == old(text[k])
    {
      text[pos] := word[j];
      pos, j := pos + 1, j + 1;
    }
  }

  /** Writes as much of the joined words as fits before the terminator. */
  method Decode(vocab: seq<string>, ids: seq<nat>, text: array<char>, max: nat) returns (pos: nat)
    requires |vocab| > UNKNOWN_ID && 1 <= max <= text.Length
    modifies text
    ensures pos < max && Fits(text[..pos], Joined(vocab, ids), max - 1)
    ensures text[pos] == '\0' && forall k :: pos < k < text.Length ==> text[k] == old(text[k])
  {
    hide Joined;
    JoinedNone(vocab, ids);
    pos := 0;
    var i := 0;
    while i < |ids| && pos < max - 1
      invariant i <= |ids| && pos <= max - 1
      invariant Fits(text[..pos], Joined(vocab, ids[..i]), max - 1)
      invariant forall k :: pos <= k < text.Length ==> text[k] == old(text[k])
    {
      JoinedMore(vocab, ids, i);
      var word := Spelling(vocab, ids[i]);
      ghost var before := Joined(vocab, ids[..i]);
      if pos > 0 && pos < max - 1 {
        text[pos] := ' ';
        pos := pos + 1;
        before := before + " ";
      }
      pos := CopyWord(word, text, pos, max - 1, before);
      i := i + 1;
    }
    JoinedGrows(vocab, ids, i);
    assert ids[..|ids|] == ids;
    text[pos] := '\0';
  }

  // ----- which cut texts give the ids back -----

  predicate AllIn(vocab: seq<string>, ids: seq<nat>) {
    forall i :: 0 <= i < |ids| ==> ids[i] < |vocab|
  }

  lemma SomeIds(vocab: seq<string>, ids: seq<nat>)
    requires |vocab| > UNKNOWN_ID && Joined(vocab, ids) != ""
    ensures ids != []
  {
  }

  /** Where word `m` of the joined words starts. */
  function WordStart(vocab: seq<string>, ids: seq<nat>, m: nat): nat
    requires |vocab| > UNKNOWN_ID && m <= |ids|
  {
    if m == 0 then 0 else |Joined(vocab, ids[..m])| + 1
  }

  /** The text ends after `n` letters of word `m`, which is longer. */
  predicate EndsInWord(vocab: seq<string>, ids: seq<nat>, room: nat, m: nat, n: nat)
    requires |vocab| > UNKNOWN_ID
  {
    m < |ids| && 0 < n < |Spelling(vocab, ids[m])| && WordStart(vocab, ids, m) + n == room
  }

  /**
   * A text cut after `room` letters gives the ids back: it ends within an unknown word, the ids before that are known,
   * and those from there on are what the letters left of the unknown word are taken for.
   */
  ghost predicate BackFromCut(vocab: seq<string>, ids: seq<nat>, room: nat, max: nat)
    requires |vocab| > UNKNOWN_ID
  {
    exists m: nat, n: nat :: EndsInWord(vocab, ids, room, m, n) && RestBack(vocab, ids, m, n, max)
  }

  predicate RestBack(vocab: seq<string>, ids: seq<nat>, m: nat, n: nat, max: nat)
    requires |vocab| > UNKNOWN_ID
  {
    && m < |ids| && m <= max && ids[m] == UNKNOWN_ID && AllIn(vocab, ids[..m])
    && n < |vocab[UNKNOWN_ID]| && ids[m..] == Ids(Tokens(vocab, vocab[UNKNOWN_ID][..n], max - m))
  }

  lemma WordStartFront(vocab: seq<string>, ids: seq<nat>, m: nat)
    requires Separable(vocab) && m < |ids|
    ensures WordStart(vocab, ids, m + 1) == |Spelling(vocab, ids[0])| + 1 + WordStart(vocab, ids[1..], m)
  {
    hide Joined, Spelling, Words, Distinct;
    JoinedFront(vocab, ids[..m + 1]);
    assert ids[..m + 1][1..] == ids[1..][..m];
  }

  /** The same word end, counted from the second word on. */
  lemma EndsInWordFront(vocab: seq<string>, ids: seq<nat>, room: nat, m: nat, n: nat)
    requires Separable(vocab) && ids != []
    ensures var word := |Spelling(vocab, ids[0])|;
      EndsInWord(vocab, ids, room, m + 1, n) <==> room > word && EndsInWord(vocab, ids[1..], room - word - 1, m, n)
  {
    hide Joined, Spelling, Words, Distinct;
    if m + 1 < |ids| {
      WordStartFront(vocab, ids, m);
    }
  }
  lemma RestBackFront(vocab: seq<string>, ids: seq<nat>, m: nat, n: nat, max: nat)
    requires |vocab| > UNKNOWN_ID && m + 1 < |ids| && max > 0
    ensures RestBack(vocab, ids, m + 1, n, max) <==> ids[0] < |vocab| && RestBack(vocab, ids[1..], m, n, max - 1)
  {
    hide Tokens, Spelling;
    assert ids[1..][m..] == ids[m + 1..];
    assert ids[..m + 1] == [ids[0]] + ids[1..][..m];
    assert forall i :: 0 <= i < m ==> ids[..m + 1][i + 1] == ids[1..][..m][i];
  }

  /** Behind a word that is there whole, the text ends as that of the ids left ends. */
  lemma BackFront(vocab: seq<string>, ids: seq<nat>, room: nat, max: nat)
    requires Separable(vocab) && ids != [] && max > 0 && room > |Spelling(vocab, ids[0])|
    ensures BackFromCut(vocab, ids, room, max) <==>
      ids[0] < |vocab| && BackFromCut(vocab, ids[1..], room - |Spelling(vocab, ids[0])| - 1, max - 1)
  {
    hide EndsInWord, RestBack, Spelling, Words, Distinct;
    var left := room - |Spelling(vocab, ids[0])| - 1;
    if BackFromCut(vocab, ids, room, max) {
      var m: nat, n: nat :| EndsInWord(vocab, ids, room, m, n) && RestBack(vocab, ids, m, n, max);
      EndsLater(vocab, ids, room, m, n);
      EndsInWordFront(vocab, ids, room, m - 1, n);
      EndsWithin(vocab, ids, room, m, n);
      RestBackFront(vocab, ids, m - 1, n, max);
      assert EndsInWord(vocab, ids[1..], left, m - 1, n) && RestBack(vocab, ids[1..], m - 1, n, max - 1);
    }
    if ids[0] < |vocab| && BackFromCut(vocab, ids[1..], left, max - 1) {
      var m: nat, n: nat :| EndsInWord(vocab, ids[1..], left, m, n) && RestBack(vocab, ids[1..], m, n, max - 1);
      EndsInWordFront(vocab, ids, room, m, n);
      EndsWithin(vocab, ids, room, m + 1, n);
      RestBackFront(vocab, ids, m, n, max);
      assert EndsInWord(vocab, ids, room, m + 1, n) && RestBack(vocab, ids, m + 1, n, max);
    }
  }

  lemma EndsWithin(vocab: seq<string>, ids: seq<nat>, room: nat, m: nat, n: nat)
    requires |vocab| > UNKNOWN_ID && EndsInWord(vocab, ids, room, m, n)
    ensures m < |ids| && n < |Spelling(vocab, ids[m])| && (m == 0 ==> room == n)
  {
  }

  /** A text that is longer than the first word ends in a later one. */
  lemma EndsLater(vocab: seq<string>, ids: seq<nat>, room: nat, m: nat, n: nat)
    requires Separable(vocab) && ids != [] && EndsInWord(vocab, ids, room, m, n)
    ensures m > 0 <==> room > |Spelling(vocab, ids[0])|
    ensures room != |Spelling(vocab, ids[0])|
  {
    EndsWithin(vocab, ids, room, m, n);
    if m > 0 {
      EndsInWordFront(vocab, ids, room, m - 1, n);
    }
  }

  /** What a part of a word is taken for starts with the word's own id only if that is the unknown one. */
  lemma PartOfWord(vocab: seq<string>, id: nat, room: nat, max: nat)
    requires Separable(vocab) && 0 < room < |Spelling(vocab, id)| && max > 0
    ensures var again := Ids(Tokens(vocab, Spelling(vocab, id)[..room], max));
      again != [] && (again[0] == id ==> id == UNKNOWN_ID)
  {
    hide Words, Distinct, Best;
    SpellingIsWord(vocab, id);
    var part := Spelling(vocab, id)[..room];
    assert part != "" && !Space(part[0]);
    assert Tokens(vocab, part, max)[0] == FirstToken(vocab, part);
  }

  /** Exactly when a text cut short gives the ids back. */
  lemma {:induction false} CutIff(vocab: seq<string>, ids: seq<nat>, room: nat, max: nat)
    requires Separable(vocab) && room < |Joined(vocab, ids)|
    ensures Ids(Tokens(vocab, Joined(vocab, ids)[..room], max)) == ids <==> BackFromCut(vocab, ids, room, max)
    decreases |ids|
  {
    hide Joined, Spelling, Words, Distinct, EndsInWord, BackFromCut;
    SomeIds(vocab, ids);
    JoinedFront(vocab, ids);
    var word := Spelling(vocab, ids[0]);
    if max == 0 {
      CutNoTokens(vocab, ids, room);
    } else if room <= |word| {
      assert Joined(vocab, ids)[..room] == word[..room];
      CutInFirst(vocab, ids, room, max);
    } else {
      var id := if ids[0] < |vocab| then ids[0] else UNKNOWN_ID;
      var left := room - |word| - 1;
      var cut := Joined(vocab, ids[1..])[..left];
      assert Joined(vocab, ids)[..room] == word + (" " + cut);
      SpellingOf(vocab, ids[0]);
      TokenOfWord(vocab, id, " " + cut, max);
      assert (" " + cut)[1..] == cut;
      CutIff(vocab, ids[1..], left, max - 1);
      BackFront(vocab, ids, room, max);
    }
  }

  lemma SpellingOf(vocab: seq<string>, id: nat)
    requires |vocab| > UNKNOWN_ID
    ensures Spelling(vocab, id) == vocab[if id < |vocab| then id else UNKNOWN_ID]
  {
  }

  lemma CutNoTokens(vocab: seq<string>, ids: seq<nat>, room: nat)
    requires Separable(vocab) && ids != []
    ensures Ids(Tokens(vocab, Joined(vocab, ids)[..if room < |Joined(vocab, ids)| then room else 0], 0)) == []
    ensures !BackFromCut(vocab, ids, room, 0)
  {
  }

  lemma CutInFirst(vocab: seq<string>, ids: seq<nat>, room: nat, max: nat)
    requires Separable(vocab) && ids != [] && max > 0 && room <= |Spelling(vocab, ids[0])|
    requires room == |Spelling(vocab, ids[0])| ==> |ids| > 1
    ensures Ids(Tokens(vocab, Spelling(vocab, ids[0])[..room], max)) == ids <==> BackFromCut(vocab, ids, room, max)
  {
    hide Joined, Words, Distinct, Tokens;
    var word := Spelling(vocab, ids[0]);
    assert ids[0..] == ids && ids[..0] == [];
    forall m: nat, n: nat | EndsInWord(vocab, ids, room, m, n)
      ensures m == 0 && n == room < |word|
    {
      EndsLater(vocab, ids, room, m, n);
    }
    if room == 0 {
      NoTokens(vocab, max);
    } else if room == |word| {
      var id := if ids[0] < |vocab| then ids[0] else UNKNOWN_ID;
      assert word[..room] == word + "";
      TokenOfWord(vocab, id, "", max);
      NoTokens(vocab, max - 1);
    } else {
      PartOfWord(vocab, ids[0], room, max);
      assert EndsInWord(vocab, ids, room, 0, room);
    }
  }

  lemma NoTokens(vocab: seq<string>, max: nat)
    ensures Tokens(vocab, "", max) == []
  {
  }

  /**
   * Decoding and encoding again, through a text buffer that may be too short. A text that fits gives the ids back
   * exactly when all are in the vocabulary and fit the other buffer; one that is cut off, exactly when it ends within
   * an unknown word whose letters happen to be taken for the ids that are left.
   */
  method DecodeEncode(vocab: seq<string>, ids: seq<nat>, text: array<char>, max: nat, again: array<nat>, maxIds: nat)
    returns (count: nat)
    requires Separable(vocab) && 1 <= max <= text.Length && maxIds <= MAX_TOKENS && maxIds <= again.Length
    modifies text, again
    ensures count <= maxIds
    ensures |Joined(vocab, ids)| < max && |ids| <= maxIds ==> again[..count] == Known(vocab, ids)
    ensures again[..count] == ids <==>
      if |Joined(vocab, ids)| < max then AllIn(vocab, ids) && |ids| <= maxIds
      else BackFromCut(vocab, ids, max - 1, maxIds)
  {
    hide Joined, Tokens, Words, Distinct, BackFromCut;
    var length := Decode(vocab, ids, text, max);
    ghost var cut := text[..length];
    count := Encode(vocab, text[..length], again, maxIds);
    if |Joined(vocab, ids)| >= max {
      CutIff(vocab, ids, max - 1, maxIds);
    } else if |ids| <= maxIds {
      assert cut == Joined(vocab, ids);
      EncodeDecode(vocab, ids, maxIds);
      EncodeDecodeIff(vocab, ids, maxIds);
    }
  }
}

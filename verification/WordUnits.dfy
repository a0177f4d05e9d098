/**
 Rebuilding words from sub-word tokens (`reconstruct_xervo_words` in
 crates/uniko-bench/src/nlp_parity_main.rs).
 */
module WordUnits {

  /** A leading space or the SentencePiece metaspace starts a word. */
  predicate IsMark(c: char) { c == ' ' || c == '\U{2581}' }

  predicate Marked(raw: string) { raw != "" && IsMark(raw[0]) }

  /** The text of a token without its leading marks. */
  function Piece(raw: string): string {
    if Marked(raw) then Piece(raw[1..]) else raw
  }

  /** Words so far, and for each token the index of its word. */
  datatype Words = Words(words: seq<string>, wordOf: seq<nat>)

  function Add(w: Words, raw: string): Words {
    var words :=
      if w.words == [] || Marked(raw) then w.words + [Piece(raw)]
      else w.words[..|w.words| - 1] + [w.words[|w.words| - 1] + Piece(raw)];
    Words(words, w.wordOf + [|words| - 1])
  }

  function Build(tokens: seq<string>): Words {
    if tokens == [] then Words([], []) else Add(Build(tokens[..|tokens| - 1]), tokens[|tokens| - 1])
  }

  lemma BuildPush(tokens: seq<string>, raw: string)
    ensures Build(tokens + [raw]) == Add(Build(tokens), raw)
  {
    assert (tokens + [raw])[..|tokens|] == tokens;
  }

  method ReconstructWords(tokens: seq<string>) returns (words: seq<string>, wordOf: seq<nat>)
    ensures Words(words, wordOf) == Build(tokens)
  {
    words, wordOf := [], [];
    for i := 0 to |tokens|
      invariant Words(words, wordOf) == Build(tokens[..i])
    {
      var raw := tokens[i];
      assert tokens[..i + 1] == tokens[..i] + [raw];
      BuildPush(tokens[..i], raw);
      var piece := Piece(raw);
      if words == [] || Marked(raw) {
        words := words + [piece];
      } else {
        words := words[..|words| - 1] + [words[|words| - 1] + piece];
      }
      wordOf := wordOf + [|words| - 1];
    }
    assert tokens[..|tokens|] == tokens;
  }

  // ----- what the map and the words say -----

  /** The pieces of the tokens of word `w`, in order. */
  function PiecesOf(tokens: seq<string>, wordOf: seq<nat>, w: nat): string
    requires |wordOf| == |tokens|
  {
    if tokens == [] then ""
    else
      var k := |tokens| - 1;
      PiecesOf(tokens[..k], wordOf[..k], w) + if wordOf[k] == w then Piece(tokens[k]) else ""
  }

  /** Word indices start at 0 and grow by one exactly at each marked token. */
  ghost predicate StepsAtMarks(tokens: seq<string>, w: Words) {
    && |w.wordOf| == |tokens|
    && (|w.words| == if tokens == [] then 0 else w.wordOf[|tokens| - 1] + 1)
    && forall i :: 0 <= i < |tokens| ==>
      w.wordOf[i] == if i == 0 then 0 else w.wordOf[i - 1] + if Marked(tokens[i]) then 1 else 0
  }

  lemma AddSteps(front: seq<string>, w: Words, raw: string)
    requires StepsAtMarks(front, w)
    ensures StepsAtMarks(front + [raw], Add(w, raw))
  {
  }

  lemma {:induction false} BuildSteps(tokens: seq<string>)
    ensures StepsAtMarks(tokens, Build(tokens))
  {
    if tokens != [] {
      var front, raw := tokens[..|tokens| - 1], tokens[|tokens| - 1];
      BuildSteps(front);
      AddSteps(front, Build(front), raw);
      assert tokens == front + [raw];
    }
  }

  lemma {:induction false} NoPieces(tokens: seq<string>, wordOf: seq<nat>, w: nat)
    requires |wordOf| == |tokens| && forall i :: 0 <= i < |tokens| ==> wordOf[i] != w
    ensures PiecesOf(tokens, wordOf, w) == ""
  {
    if tokens != [] { NoPieces(tokens[..|tokens| - 1], wordOf[..|tokens| - 1], w); }
  }

  lemma {:induction false} IndicesBelow(tokens: seq<string>, i: nat)
    requires i < |tokens|
    ensures StepsAtMarks(tokens, Build(tokens)) && Build(tokens).wordOf[i] < |Build(tokens).words|
  {
    BuildSteps(tokens);
    if i < |tokens| - 1 {
      IndicesBelow(tokens[..|tokens| - 1], i);
      BuildSteps(tokens[..|tokens| - 1]);
    }
  }

  lemma PiecesPush(tokens: seq<string>, wordOf: seq<nat>, raw: string, x: nat, w: nat)
    requires |wordOf| == |tokens|
    ensures PiecesOf(tokens + [raw], wordOf + [x], w) == PiecesOf(tokens, wordOf, w) + if x == w then Piece(raw) else ""
  {
    assert (tokens + [raw])[..|tokens|] == tokens && (wordOf + [x])[..|tokens|] == wordOf;
  }

  /** Each word is the pieces of exactly the tokens mapped to it: no text is lost,
      duplicated or moved. */
  lemma {:induction false} WordsArePieces(tokens: seq<string>, w: nat)
    requires w < |Build(tokens).words|
    ensures |Build(tokens).wordOf| == |tokens|
    ensures Build(tokens).words[w] == PiecesOf(tokens, Build(tokens).wordOf, w)
  {
    var front, raw := tokens[..|tokens| - 1], tokens[|tokens| - 1];
    assert tokens == front + [raw];
    var before, after := Build(front), Build(tokens);
    BuildSteps(front);
    assert after == Add(before, raw);
    PiecesPush(front, before.wordOf, raw, |after.words| - 1, w);
    if w < |before.words| {
      WordsArePieces(front, w);
    } else {
      forall i | 0 <= i < |front| ensures before.wordOf[i] != w { IndicesBelow(front, i); }
      NoPieces(front, before.wordOf, w);
    }
  }

  // ----- split, then rebuild -----

  function Concat(pieces: seq<string>): string {
    if pieces == [] then "" else Concat(pieces[..|pieces| - 1]) + pieces[|pieces| - 1]
  }

  /** A tokenizer's output for one word: the first piece carries the mark. */
  function Tokenized(pieces: seq<string>): seq<string>
    requires pieces != []
  {
    ["\U{2581}" + pieces[0]] + pieces[1..]
  }

  function TokenizedAll(words: seq<seq<string>>): seq<string>
    requires forall i :: 0 <= i < |words| ==> words[i] != []
  {
    if words == [] then []
    else
      TokenizedAll(words[..|words| - 1]) + Tokenized(words[|words| - 1])
  }

  ghost predicate Splits(words: seq<seq<string>>) {
    forall i :: 0 <= i < |words| ==> words[i] != [] && forall k :: 0 <= k < |words[i]| ==> !Marked(words[i][k])
  }

  function Joined(words: seq<seq<string>>): seq<string> {
    if words == [] then [] else Joined(words[..|words| - 1]) + [Concat(words[|words| - 1])]
  }

  lemma MarkedPiece(piece: string)
    requires !Marked(piece)
    ensures Marked("\U{2581}" + piece) && Piece("\U{2581}" + piece) == piece
  {
    assert ("\U{2581}" + piece)[1..] == piece;
  }

  lemma TokenizedPush(tokens: seq<string>, pieces: seq<string>)
    requires |pieces| > 1
    ensures tokens + Tokenized(pieces) == (tokens + Tokenized(pieces[..|pieces| - 1])) + [pieces[|pieces| - 1]]
  {
  }

  lemma JoinLast(w: Words, word: string, piece: string)
    requires w.words != [] && w.words[|w.words| - 1] == word && !Marked(piece)
    ensures Add(w, piece).words == w.words[..|w.words| - 1] + [word + piece]
  {
  }

  lemma {:induction false} BuildOneWord(tokens: seq<string>, pieces: seq<string>)
    requires pieces != [] && forall k :: 0 <= k < |pieces| ==> !Marked(pieces[k])
    ensures Build(tokens + Tokenized(pieces)).words == Build(tokens).words + [Concat(pieces)]
    decreases |pieces|
  {
    var front, last := pieces[..|pieces| - 1], pieces[|pieces| - 1];
    if front == [] {
      MarkedPiece(last);
      assert Tokenized(pieces) == ["\U{2581}" + last];
      BuildPush(tokens, "\U{2581}" + last);
      assert Concat(pieces) == Concat(front) + last == last;
    } else {
      BuildOneWord(tokens, front);
      var before := tokens + Tokenized(front);
      TokenizedPush(tokens, pieces);
      BuildPush(before, last);
      JoinLast(Build(before), Concat(front), last);
    }
  }

  /** Round trip: words cut into unmarked pieces, the first of each marked, come
      back as the same words. */
  lemma {:induction false} RebuildsWords(words: seq<seq<string>>)
    requires Splits(words)
    ensures Build(TokenizedAll(words)).words == Joined(words)
  {
    if words != [] {
      var front, last := words[..|words| - 1], words[|words| - 1];
      RebuildsWords(front);
      BuildOneWord(TokenizedAll(front), last);
    }
  }
}

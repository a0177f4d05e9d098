/**
 What `normalize_canonical` gives (crates/uniko-store/src/text.rs, 29-47), word by word:
 the words of the text, its outer white space and punctuation gone, in lower case and
 with single spaces between.
 */
module TextWords {
  import opened CanonicalText

  // ----- words -----

  predicate EndsInWord(s: string) { s != "" && !IsSpace(s[|s| - 1]) }

  /** The runs of characters between white space. */
  function Words(s: string): (r: seq<string>)
    ensures EndsInWord(s) ==> r != []
  {
    if s == "" then []
    else
      var front, c := s[..|s| - 1], s[|s| - 1];
      if IsSpace(c) then Words(front)
      else if EndsInWord(front) then Grown(Words(front), c)
      else Words(front) + [[c]]
  }

  function Grown(words: seq<string>, c: char): seq<string>
    requires words != []
  {
    words[..|words| - 1] + [words[|words| - 1] + [c]]
  }

  predicate IsWord(w: string) { w != "" && forall i :: 0 <= i < |w| ==> !IsSpace(w[i]) }

  function Flat(words: seq<string>): string {
    if words == [] then "" else Flat(words[..|words| - 1]) + words[|words| - 1]
  }

  function WithoutSpace(s: string): string {
    if s == "" then ""
    else WithoutSpace(s[..|s| - 1]) + if IsSpace(s[|s| - 1]) then "" else [s[|s| - 1]]
  }

  predicate StartsWord(s: string, i: nat) {
    i < |s| && !IsSpace(s[i]) && !EndsInWord(s[..i])
  }

  ghost function WordStarts(s: string): set<nat> {
    set i | 0 <= i < |s| && StartsWord(s, i)
  }

  lemma FlatPush(words: seq<string>, w: string)
    ensures Flat(words + [w]) == Flat(words) + w
  {
    assert (words + [w])[..|words|] == words;
  }

  lemma GrownFlat(words: seq<string>, c: char)
    requires words != [] && !IsSpace(c) && forall w :: w in words ==> IsWord(w)
    ensures Flat(Grown(words, c)) == Flat(words) + [c] && forall w :: w in Grown(words, c) ==> IsWord(w)
  {
    var front, last := words[..|words| - 1], words[|words| - 1];
    FlatPush(front, last + [c]);
    assert last in words && IsWord(last + [c]);
    forall w | w in Grown(words, c) ensures IsWord(w) { if w != last + [c] { assert w in front && w in words; } }
  }

  lemma WordsNext(front: string, c: char)
    ensures Words(front + [c]) ==
      if IsSpace(c) then Words(front) else if EndsInWord(front) then Grown(Words(front), c) else Words(front) + [[c]]
    ensures WithoutSpace(front + [c]) == WithoutSpace(front) + if IsSpace(c) then "" else [c]
  {
    assert (front + [c])[..|front|] == front;
  }

  /** The words hold all that is not white space, in order. */
  lemma {:induction false} WordsHold(s: string)
    ensures (forall w :: w in Words(s) ==> IsWord(w)) && Flat(Words(s)) == WithoutSpace(s)
  {
    if s != "" {
      var front, c := s[..|s| - 1], s[|s| - 1];
      assert s == front + [c];
      WordsHold(front);
      WordsNext(front, c);
      if !IsSpace(c) {
        if EndsInWord(front) {
          GrownFlat(Words(front), c);
        } else {
          FlatPush(Words(front), [c]);
          assert IsWord([c]);
        }
      }
    }
  }

  lemma StartsNext(front: string, c: char)
    ensures WordStarts(front + [c]) == WordStarts(front) + if IsSpace(c) || EndsInWord(front) then {} else {|front|}
  {
    var s := front + [c];
    forall i: nat | i < |front| ensures StartsWord(s, i) <==> StartsWord(front, i) { assert s[..i] == front[..i] && s[i] == front[i]; }
    assert s[..|front|] == front && s[|front|] == c;
  }

  /** There are as many as places where the text begins or white space ends. */
  lemma {:induction false} WordsCounted(s: string)
    ensures |Words(s)| == |WordStarts(s)|
  {
    if s == "" {
      assert WordStarts(s) == {};
    } else {
      var front, c := s[..|s| - 1], s[|s| - 1];
      assert s == front + [c];
      WordsCounted(front);
      WordsNext(front, c);
      StartsNext(front, c);
      assert |front| !in WordStarts(front);
    }
  }

  // ----- the normal form -----

  function LowerWord(w: string, lower: char -> string): string {
    if w == "" then "" else LowerWord(w[..|w| - 1], lower) + lower(w[|w| - 1])
  }

  /** The words in lower case, single spaces between. */
  function Spelled(words: seq<string>, lower: char -> string): string {
    if words == [] then ""
    else
      var front, w := words[..|words| - 1], LowerWord(words[|words| - 1], lower);
      if front == [] then w else Spelled(front, lower) + " " + w
  }

  lemma SpelledPush(words: seq<string>, c: char, lower: char -> string)
    ensures Spelled(words + [[c]], lower) == Spelled(words, lower) + (if words == [] then "" else " ") + lower(c)
  {
    assert (words + [[c]])[..|words|] == words;
    assert [c][..0] == "";
    assert LowerWord([c], lower) == lower(c);
  }

  lemma SpelledGrown(words: seq<string>, c: char, lower: char -> string)
    requires words != []
    ensures Spelled(Grown(words, c), lower) == Spelled(words, lower) + lower(c)
  {
    var front, last := words[..|words| - 1], words[|words| - 1];
    assert Grown(words, c)[..|front|] == front;
    assert (last + [c])[..|last|] == last;
  }

  lemma SpelledIsText(words: seq<string>, lower: char -> string)
    requires (forall c :: lower(c) != "") && forall w :: w in words ==> IsWord(w)
    ensures Spelled(words, lower) != "" <==> words != []
  {
    if words != [] {
      var last := words[|words| - 1];
      assert last in words && LowerWord(last, lower) != "";
    }
  }

  /** The loop has written the words so far, and owes a space after white space. */
  ghost predicate Writes(q: Squeezed, words: seq<string>, inWord: bool, lower: char -> string) {
    q.out == Spelled(words, lower) && (q.pending <==> !inWord && words != [])
  }

  lemma WriteSpace(q: Squeezed, words: seq<string>, inWord: bool, lower: char -> string)
    requires (forall x :: lower(x) != "") && (forall w :: w in words ==> IsWord(w)) && Writes(q, words, inWord, lower)
    ensures Writes(Squeezed(q.out, q.out != ""), words, false, lower)
  {
    SpelledIsText(words, lower);
  }

  lemma WriteFirst(q: Squeezed, words: seq<string>, c: char, lower: char -> string)
    requires Writes(q, words, false, lower)
    ensures Writes(Squeezed(q.out + (if q.pending then " " else "") + lower(c), false), words + [[c]], true, lower)
  {
    SpelledPush(words, c, lower);
  }

  lemma WriteOn(q: Squeezed, words: seq<string>, c: char, lower: char -> string)
    requires words != [] && Writes(q, words, true, lower)
    ensures Writes(Squeezed(q.out + (if q.pending then " " else "") + lower(c), false), Grown(words, c), true, lower)
  {
    SpelledGrown(words, c, lower);
  }

  lemma SqueezeNext(front: string, c: char, lower: char -> string)
    ensures var q := Squeeze(front, lower);
      Squeeze(front + [c], lower) ==
        if IsSpace(c) then Squeezed(q.out, q.out != "") else Squeezed(q.out + (if q.pending then " " else "") + lower(c), false)
  {
    assert (front + [c])[..|front|] == front;
  }

  lemma WritesNext(front: string, c: char, lower: char -> string)
    requires (forall x :: lower(x) != "") && Writes(Squeeze(front, lower), Words(front), EndsInWord(front), lower)
    ensures Writes(Squeeze(front + [c], lower), Words(front + [c]), !IsSpace(c), lower)
  {
    WordsHold(front);
    WordsNext(front, c);
    SqueezeNext(front, c, lower);
    var q, words := Squeeze(front, lower), Words(front);
    if IsSpace(c) {
      WriteSpace(q, words, EndsInWord(front), lower);
    } else if EndsInWord(front) {
      WriteOn(q, words, c, lower);
    } else {
      WriteFirst(q, words, c, lower);
    }
  }

  lemma {:induction false} SqueezeSpells(s: string, lower: char -> string)
    requires forall c :: lower(c) != ""
    ensures Writes(Squeeze(s, lower), Words(s), EndsInWord(s), lower)
  {
    if s != "" {
      SqueezeSpells(s[..|s| - 1], lower);
      WritesNext(s[..|s| - 1], s[|s| - 1], lower);
      assert s == s[..|s| - 1] + [s[|s| - 1]];
    }
  }

  // ----- the outer characters -----

  ghost predicate All(s: string, p: char -> bool) {
    forall i :: 0 <= i < |s| ==> p(s[i])
  }

  lemma {:induction false} TrimStartTakes(s: string, p: char -> bool) returns (pre: string)
    ensures s == pre + TrimStart(s, p) && All(pre, p)
  {
    pre := "";
    if s != "" && p(s[0]) {
      pre := TrimStartTakes(s[1..], p);
      pre := [s[0]] + pre;
    }
  }

  lemma {:induction false} TrimEndTakes(s: string, p: char -> bool) returns (post: string)
    ensures s == TrimEnd(s, p) + post && All(post, p)
  {
    post := "";
    if s != "" && p(s[|s| - 1]) {
      post := TrimEndTakes(s[..|s| - 1], p);
      post := post + [s[|s| - 1]];
    }
  }

  /** Trimming takes away such characters at the ends only, and all of them there. */
  lemma TrimTakes(s: string, p: char -> bool) returns (pre: string, post: string)
    ensures s == pre + Trim(s, p) + post && All(pre, p) && All(post, p)
    ensures Trim(s, p) == "" || (!p(Trim(s, p)[0]) && !p(Trim(s, p)[|Trim(s, p)| - 1]))
  {
    pre := TrimStartTakes(s, p);
    post := TrimEndTakes(TrimStart(s, p), p);
    TrimmedEnds(s, p);
  }

  /** Outer white space, then outer punctuation, taken off. */
  lemma StrippedMeans(s: string) returns (a: string, b: string, inner: string, c: string, d: string)
    ensures s == a + inner + d && All(a, IsSpace) && All(d, IsSpace)
    ensures inner == b + Stripped(s) + c && All(b, IsPunct) && All(c, IsPunct)
    ensures (inner == "" || (!IsSpace(inner[0]) && !IsSpace(inner[|inner| - 1]))) && CleanEnds(Stripped(s))
  {
    inner := Trim(s, IsSpace);
    a, d := TrimTakes(s, IsSpace);
    b, c := TrimTakes(inner, IsPunct);
  }

  /** The normal form of a text: the words of what is left of it when its ends are
      stripped, in lower case and with single spaces between. */
  lemma NormalizeMeans(s: string, lower: char -> string)
    requires forall x :: lower(x) != ""
    ensures Normalize(s, lower) == Spelled(Words(Stripped(s)), lower)
  {
    SqueezeSpells(Stripped(s), lower);
  }
}

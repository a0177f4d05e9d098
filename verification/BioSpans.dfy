/**
 Merging per-token BIO tags into entity spans (`xervo_ner` in
 crates/uniko-bench/src/nlp_parity_main.rs).
 */
module BioSpans {
  import opened Wrappers

  datatype Token = Token(ner: Option<string>, start: nat, end: nat)

  /** An entity with its byte range in the sentence. */
  datatype Entity = Entity(ty: string, start: nat, end: nat)

  /** Tokens from..to carry one entity of type `ty`. */
  datatype Span = Span(ty: string, from: nat, to: nat)

  // ----- tags -----

  datatype Label = Outside | Tagged(prefix: string, ty: string)

  /** The text before and after the first hyphen. */
  function SplitOnce(s: string): Option<(string, string)> {
    if s == "" then None
    else if s[0] == '-' then Some(("", s[1..]))
    else match SplitOnce(s[1..])
      case None => None
      case Some((x, y)) => Some(([s[0]] + x, y))
  }

  function Parse(ner: Option<string>): Label {
    match ner
    case None => Outside
    case Some(tag) =>
      if tag == "O" || tag == "" then Outside
      else match SplitOnce(tag)
        case None => Tagged("B", tag)
        case Some((prefix, ty)) => Tagged(prefix, ty)
  }

  function Labels(tokens: seq<Token>): (ls: seq<Label>)
    ensures |ls| == |tokens|
  {
    seq(|tokens|, i requires 0 <= i < |tokens| => Parse(tokens[i].ner))
  }

  // ----- the merge -----

  /** Finished spans, and the one still open at the last token seen. */
  datatype Merge = Merge(done: seq<Span>, run: Option<Span>) {
    function All(): seq<Span> {
      match run case None => done case Some(s) => done + [s]
    }
  }

  function Next(m: Merge, l: Label, k: nat): Merge {
    match l
    case Outside => Merge(m.All(), None)
    case Tagged(prefix, ty) =>
      if m.run.Some? && prefix == "I" && m.run.value.ty == ty then Merge(m.done, Some(m.run.value.(to := k + 1)))
      else Merge(m.All(), Some(Span(ty, k, k + 1)))
  }

  function MergeAll(ls: seq<Label>): Merge {
    if ls == [] then Merge([], None) else Next(MergeAll(ls[..|ls| - 1]), ls[|ls| - 1], |ls| - 1)
  }

  function Spans(ls: seq<Label>): seq<Span> {
    MergeAll(ls).All()
  }

  predicate InRange(spans: seq<Span>, n: nat) {
    forall k :: 0 <= k < |spans| ==> spans[k].from < spans[k].to <= n
  }

  function Locate(s: Span, tokens: seq<Token>): Entity
    requires s.from < s.to <= |tokens|
  {
    Entity(s.ty, tokens[s.from].start, tokens[s.to - 1].end)
  }

  function Located(spans: seq<Span>, tokens: seq<Token>): seq<Entity>
    requires InRange(spans, |tokens|)
  {
    if spans == [] then [] else Located(spans[..|spans| - 1], tokens) + [Locate(spans[|spans| - 1], tokens)]
  }

  lemma LocatedPush(spans: seq<Span>, s: Span, tokens: seq<Token>)
    requires InRange(spans, |tokens|) && s.from < s.to <= |tokens|
    ensures InRange(spans + [s], |tokens|)
    ensures Located(spans + [s], tokens) == Located(spans, tokens) + [Locate(s, tokens)]
  {
    assert (spans + [s])[..|spans|] == spans;
  }

  lemma LocateLonger(s: Span, tokens: seq<Token>, i: nat)
    requires s.from < s.to <= i < |tokens|
    ensures Locate(s.(to := i + 1), tokens) == Locate(s, tokens).(end := tokens[i].end)
  {
  }

  /** The loop's entities and open run are the located merge. */
  ghost predicate Tracks(tokens: seq<Token>, i: nat, m: Merge, entities: seq<Entity>, run: Option<Entity>)
    requires i <= |tokens|
  {
    && InRange(m.done, i) && entities == Located(m.done, tokens)
    && (m.run.Some? ==> m.run.value.from < m.run.value.to == i && run == Some(Locate(m.run.value, tokens)))
    && (m.run.None? ==> run.None?)
  }

  function Flushed(entities: seq<Entity>, run: Option<Entity>): seq<Entity> {
    if run.Some? then entities + [run.value] else entities
  }

  lemma FlushTracks(tokens: seq<Token>, i: nat, m: Merge, entities: seq<Entity>, run: Option<Entity>)
    requires i <= |tokens| && Tracks(tokens, i, m, entities, run)
    ensures InRange(m.All(), i) && Flushed(entities, run) == Located(m.All(), tokens)
  {
    if m.run.Some? { LocatedPush(m.done, m.run.value, tokens); }
  }

  /** The open run is flushed, and a new one may start. */
  lemma TrackFlush(tokens: seq<Token>, i: nat, m: Merge, entities: seq<Entity>, run: Option<Entity>, ty: string)
    requires i < |tokens| && Tracks(tokens, i, m, entities, run)
    ensures Tracks(tokens, i + 1, Merge(m.All(), None), Flushed(entities, run), None)
    ensures Tracks(tokens, i + 1, Merge(m.All(), Some(Span(ty, i, i + 1))), Flushed(entities, run),
                   Some(Entity(ty, tokens[i].start, tokens[i].end)))
  {
    FlushTracks(tokens, i, m, entities, run);
  }

  /** The open run grows by one token. */
  lemma TrackContinue(tokens: seq<Token>, i: nat, m: Merge, entities: seq<Entity>, run: Option<Entity>)
    requires i < |tokens| && Tracks(tokens, i, m, entities, run) && run.Some?
    ensures m.run.Some? && m.run.value.ty == run.value.ty
    ensures Tracks(tokens, i + 1, Merge(m.done, Some(m.run.value.(to := i + 1))), entities, Some(run.value.(end := tokens[i].end)))
  {
    LocateLonger(m.run.value, tokens, i);
  }

  method XervoNer(tokens: seq<Token>) returns (entities: seq<Entity>)
    ensures InRange(Spans(Labels(tokens)), |tokens|)
    ensures entities == Located(Spans(Labels(tokens)), tokens)
  {
    entities := [];
    var run: Option<Entity> := None;
    ghost var ls, m := Labels(tokens), Merge([], None);
    for i := 0 to |tokens|
      invariant m == MergeAll(ls[..i]) && Tracks(tokens, i, m, entities, run)
    {
      var tok := tokens[i];
      assert ls[..i + 1][..i] == ls[..i];
      ghost var before := m;
      m := Next(m, ls[i], i);
      match Parse(tok.ner)
      case Outside =>
        TrackFlush(tokens, i, before, entities, run, "");
        if run.Some? { entities := entities + [run.value]; }
        run := None;
      case Tagged(prefix, ty) =>
        if run.Some? && prefix == "I" && run.value.ty == ty {
          TrackContinue(tokens, i, before, entities, run);
          run := Some(run.value.(end := tok.end));
        } else {
          TrackFlush(tokens, i, before, entities, run, ty);
          if run.Some? { entities := entities + [run.value]; }
          run := Some(Entity(ty, tok.start, tok.end));
        }
    }
    assert ls[..|tokens|] == ls;
    FlushTracks(tokens, |tokens|, m, entities, run);
    if run.Some? { entities := entities + [run.value]; }
  }

  // ----- arbitrary tags: what the spans are -----

  /** The label at `i` opens a span: it is tagged and does not continue the tag
      just before it. */
  predicate Starts(ls: seq<Label>, i: nat)
    requires i < |ls|
  {
    ls[i].Tagged? && !(i > 0 && ls[i - 1].Tagged? && ls[i].prefix == "I" && ls[i - 1].ty == ls[i].ty)
  }

  ghost predicate Ordered(spans: seq<Span>) {
    forall j, k :: 0 <= j < k < |spans| ==> spans[j].to <= spans[k].from
  }

  ghost predicate Covered(spans: seq<Span>, i: nat) {
    exists k :: 0 <= k < |spans| && spans[k].from <= i < spans[k].to
  }

  /** A span is one opening label and the labels that continue it. */
  ghost predicate IsRun(ls: seq<Label>, s: Span) {
    && s.from < s.to <= |ls| && Starts(ls, s.from)
    && forall i :: s.from <= i < s.to ==> ls[i].Tagged? && ls[i].ty == s.ty && (i > s.from ==> !Starts(ls, i))
  }

  ghost predicate AllRuns(ls: seq<Label>, spans: seq<Span>) {
    forall k :: 0 <= k < |spans| ==> IsRun(ls, spans[k])
  }

  ghost predicate Covers(ls: seq<Label>, spans: seq<Span>) {
    forall i :: 0 <= i < |ls| ==> (Covered(spans, i) <==> ls[i].Tagged?)
  }

  lemma RunLasts(ls: seq<Label>, l: Label, s: Span)
    requires IsRun(ls, s)
    ensures IsRun(ls + [l], s)
    ensures s.to == |ls| && l.Tagged? && l.prefix == "I" && l.ty == s.ty ==> IsRun(ls + [l], s.(to := |ls| + 1))
  {
    var after := ls + [l];
    assert forall i :: 0 <= i < |ls| ==> after[i] == ls[i];
    assert forall i :: 0 <= i < |ls| ==> Starts(after, i) == Starts(ls, i);
  }

  lemma CoveredPush(spans: seq<Span>, s: Span, i: nat)
    ensures Covered(spans + [s], i) <==> Covered(spans, i) || s.from <= i < s.to
  {
    var after := spans + [s];
    if Covered(spans, i) {
      var k :| 0 <= k < |spans| && spans[k].from <= i < spans[k].to;
      assert after[k] == spans[k];
    }
    if s.from <= i < s.to { assert after[|spans|] == s; }
  }

  /** The open run ends at the last label, which is tagged; without one it is not. */
  ghost predicate OpenAtEnd(ls: seq<Label>, m: Merge) {
    if m.run.Some? then m.run.value.to == |ls| && ls != [] && ls[|ls| - 1].Tagged? && ls[|ls| - 1].ty == m.run.value.ty
    else ls == [] || ls[|ls| - 1] == Outside
  }

  lemma {:induction false} MergeOpen(ls: seq<Label>)
    ensures OpenAtEnd(ls, MergeAll(ls))
  {
  }

  lemma {:induction false} MergeRuns(ls: seq<Label>)
    ensures AllRuns(ls, Spans(ls))
  {
    if ls != [] {
      var front, l, k := ls[..|ls| - 1], ls[|ls| - 1], |ls| - 1;
      var m := MergeAll(front);
      MergeRuns(front);
      MergeOpen(front);
      assert ls == front + [l];
      forall s | s in m.All() ensures IsRun(ls, s) { RunLasts(front, l, s); }
      if m.run.Some? {
        assert m.run.value == m.All()[|m.done|];
        RunLasts(front, l, m.run.value);
      }
      forall s | s in Spans(ls) ensures IsRun(ls, s) {
        if s in m.All() {
        } else if l.Tagged? && s == Span(l.ty, k, k + 1) {
          if !Starts(ls, k) { assert m.run.Some?; }
        }
      }
    }
  }

  lemma {:induction false} MergeOrdered(ls: seq<Label>)
    ensures Ordered(Spans(ls)) && InRange(Spans(ls), |ls|)
  {
    if ls != [] {
      var front, l, k := ls[..|ls| - 1], ls[|ls| - 1], |ls| - 1;
      var m := MergeAll(front);
      MergeOrdered(front);
      MergeOpen(front);
      NextOrdered(m, l, k);
    }
  }

  lemma NextOrdered(m: Merge, l: Label, k: nat)
    requires Ordered(m.All()) && InRange(m.All(), k)
    ensures Ordered(Next(m, l, k).All()) && InRange(Next(m, l, k).All(), k + 1)
  {
    var before, after := m.All(), Next(m, l, k).All();
    if m.run.Some? { assert before == m.done + [m.run.value]; }
    assert forall j :: 0 <= j < |after| ==> after[j].from == (if j < |before| then before[j].from else k);
    assert forall j :: 0 <= j < |after| - 1 ==> after[j] == before[j];
  }

  lemma NextCovered(m: Merge, l: Label, k: nat, i: nat)
    requires InRange(m.All(), k) && (m.run.Some? ==> m.run.value.to == k)
    ensures Covered(Next(m, l, k).All(), i) <==> Covered(m.All(), i) || (l.Tagged? && i == k)
  {
    if m.run.Some? { CoveredPush(m.done, m.run.value, i); }
    if l.Tagged? {
      CoveredPush(m.All(), Span(l.ty, k, k + 1), i);
      if m.run.Some? {
        assert m.All()[|m.done|] == m.run.value;
        CoveredPush(m.done, m.run.value.(to := k + 1), i);
      }
    }
  }

  lemma {:induction false} MergeCovers(ls: seq<Label>)
    ensures Covers(ls, Spans(ls))
  {
    if ls != [] {
      var front, l, k := ls[..|ls| - 1], ls[|ls| - 1], |ls| - 1;
      MergeCovers(front);
      MergeOpen(front);
      MergeOrdered(front);
      forall i | 0 <= i < |ls| ensures Covered(Spans(ls), i) <==> ls[i].Tagged? {
        NextCovered(MergeAll(front), l, k, i);
        if i < k { assert front[i] == ls[i]; }
      }
    }
  }

  /** Whatever the tags, the spans are ordered and disjoint, each is a maximal run
      from an opening label on, and together they cover exactly the tagged tokens. */
  lemma SpansAreRuns(ls: seq<Label>)
    ensures Ordered(Spans(ls)) && AllRuns(ls, Spans(ls)) && Covers(ls, Spans(ls))
  {
    MergeRuns(ls);
    MergeOrdered(ls);
    MergeCovers(ls);
  }

  /** Tokens in the order of the sentence. */
  ghost predicate InSentence(tokens: seq<Token>) {
    forall i :: 0 <= i < |tokens| ==> tokens[i].start <= tokens[i].end && (i + 1 < |tokens| ==> tokens[i].end <= tokens[i + 1].start)
  }

  lemma {:induction false} TokensAdvance(tokens: seq<Token>, i: nat, j: nat)
    requires InSentence(tokens) && i <= j < |tokens|
    ensures tokens[i].start <= tokens[j].start && tokens[i].end <= tokens[j].end
    decreases j - i
  {
    if i < j { TokensAdvance(tokens, i, j - 1); }
  }

  lemma {:induction false} LocatedAt(spans: seq<Span>, tokens: seq<Token>, k: nat)
    requires InRange(spans, |tokens|) && k < |spans|
    ensures |Located(spans, tokens)| == |spans| && Located(spans, tokens)[k] == Entity(spans[k].ty, tokens[spans[k].from].start, tokens[spans[k].to - 1].end)
  {
    if k < |spans| - 1 {
      LocatedAt(spans[..|spans| - 1], tokens, k);
    } else if k > 0 {
      LocatedAt(spans[..|spans| - 1], tokens, 0);
    }
  }

  /** Entity `k` reaches from the first to the last byte of the tokens of span `k`, and
      over all of them. */
  lemma EntityHoldsItsTokens(spans: seq<Span>, tokens: seq<Token>, k: nat, j: nat)
    requires InSentence(tokens) && InRange(spans, |tokens|) && k < |spans| && spans[k].from <= j < spans[k].to
    ensures |Located(spans, tokens)| == |spans|
    ensures var e := Located(spans, tokens)[k];
      && e.ty == spans[k].ty && e.start <= tokens[j].start && tokens[j].end <= e.end
      && (j == spans[k].from ==> e.start == tokens[j].start) && (j == spans[k].to - 1 ==> e.end == tokens[j].end)
  {
    LocatedAt(spans, tokens, k);
    TokensAdvance(tokens, spans[k].from, j);
    TokensAdvance(tokens, j, spans[k].to - 1);
  }

  lemma {:induction false} NoHyphen(tag: string)
    requires '-' !in tag
    ensures SplitOnce(tag) == None
  {
    if tag != "" { NoHyphen(tag[1..]); }
  }

  /** No tag, the empty one and "O" are outside; a bare type opens a span. */
  lemma ParseBare(tag: string)
    requires '-' !in tag
    ensures Parse(None) == Outside
    ensures Parse(Some(tag)) == if tag == "" || tag == "O" then Outside else Tagged("B", tag)
  {
    NoHyphen(tag);
  }

  // ----- encode, then merge -----

  /** The label of token `i` when exactly `spans` are to be marked. */
  function LabelAt(spans: seq<Span>, i: nat): Label {
    if spans == [] then Outside
    else
      var s := spans[|spans| - 1];
      if i >= s.to then Outside
      else if i == s.from then Tagged("B", s.ty)
      else if i > s.from then Tagged("I", s.ty)
      else LabelAt(spans[..|spans| - 1], i)
  }

  function Tag(l: Label): string {
    match l case Outside => "O" case Tagged(prefix, ty) => prefix + "-" + ty
  }

  lemma ParseTag(l: Label)
    requires l.Tagged? ==> l.prefix == "B" || l.prefix == "I"
    ensures Parse(Some(Tag(l))) == l
  {
    if l.Tagged? {
      var tag := Tag(l);
      assert tag[0] == l.prefix[0] && tag[1..] == "-" + l.ty && tag[1..][1..] == l.ty;
      assert SplitOnce(tag[1..]) == Some(("", l.ty));
    }
  }

  ghost predicate Proper(spans: seq<Span>) {
    Ordered(spans) && forall k :: 0 <= k < |spans| ==> spans[k].from < spans[k].to
  }

  /** The state of the merge after `m` tokens of the encoded sentence. */
  function MergeAt(spans: seq<Span>, m: nat): Merge {
    if spans == [] then Merge([], None)
    else
      var front, s := spans[..|spans| - 1], spans[|spans| - 1];
      if s.from >= m then MergeAt(front, m)
      else if s.to < m then Merge(spans, None)
      else Merge(front, Some(s.(to := m)))
  }

  lemma {:induction false} MergeAtEnd(spans: seq<Span>, m: nat)
    requires Ordered(spans) && InRange(spans, m)
    ensures MergeAt(spans, m).All() == spans
  {
    if spans != [] { assert spans == spans[..|spans| - 1] + [spans[|spans| - 1]]; }
  }

  lemma {:induction false} MergeAtStep(spans: seq<Span>, m: nat)
    requires Proper(spans)
    ensures Next(MergeAt(spans, m), LabelAt(spans, m), m) == MergeAt(spans, m + 1)
  {
    if spans != [] {
      var front, s := spans[..|spans| - 1], spans[|spans| - 1];
      if s.from > m {
        MergeAtStep(front, m);
      } else if s.from == m {
        forall k | 0 <= k < |front| ensures front[k].to <= m { assert spans[k].to <= s.from; }
        MergeAtEnd(front, m);
      } else if s.to == m {
        assert spans == front + [s];
      }
    }
  }

  lemma {:induction false} MergeOfEncoded(spans: seq<Span>, ls: seq<Label>)
    requires Proper(spans)
    requires forall i :: 0 <= i < |ls| ==> ls[i] == LabelAt(spans, i)
    ensures MergeAll(ls) == MergeAt(spans, |ls|)
  {
    if ls == [] {
      MergeAtStart(spans);
    } else {
      MergeOfEncoded(spans, ls[..|ls| - 1]);
      MergeAtStep(spans, |ls| - 1);
    }
  }

  lemma {:induction false} MergeAtStart(spans: seq<Span>)
    ensures MergeAt(spans, 0) == Merge([], None)
  {
    if spans != [] { MergeAtStart(spans[..|spans| - 1]); }
  }

  lemma {:induction false} LabelAtPrefix(spans: seq<Span>, i: nat)
    ensures LabelAt(spans, i).Tagged? ==> LabelAt(spans, i).prefix == "B" || LabelAt(spans, i).prefix == "I"
  {
    if spans != [] { LabelAtPrefix(spans[..|spans| - 1], i); }
  }

  /** Round trip: tag any ordered, disjoint, non-empty typed spans with B-/I-/O
      text, merge, and the very same spans come back. */
  lemma BioRoundTrip(spans: seq<Span>, tokens: seq<Token>)
    requires Ordered(spans) && InRange(spans, |tokens|)
    requires forall i :: 0 <= i < |tokens| ==> tokens[i].ner == Some(Tag(LabelAt(spans, i)))
    ensures Spans(Labels(tokens)) == spans
  {
    forall i | 0 <= i < |tokens| ensures Labels(tokens)[i] == LabelAt(spans, i) {
      LabelAtPrefix(spans, i);
      ParseTag(LabelAt(spans, i));
    }
    MergeOfEncoded(spans, Labels(tokens));
    MergeAtEnd(spans, |tokens|);
  }
}

/**
 Text keys: `normalize_canonical` (crates/uniko-store/src/text.rs), which the
 consolidation groups subjects by, and `normalize_object`
 (crates/uniko-memory/src/consolidation.rs), which it clusters objects by.
 */
module CanonicalText {

  /** Unicode White_Space. */
  predicate IsSpace(c: char) {
    c == ' ' || '\t' <= c <= '\r' || c == '\U{85}' || c == '\U{A0}' || c == '\U{1680}' || '\U{2000}' <= c <= '\U{200A}'
    || c == '\U{2028}' || c == '\U{2029}' || c == '\U{202F}' || c == '\U{205F}' || c == '\U{3000}'
  }

  predicate IsPunct(c: char) {
    '!' <= c <= '/' || ':' <= c <= '@' || '[' <= c <= '`' || '{' <= c <= '~'
  }

  /** Lower case of ASCII; other letters stay as they are. */
  function Lower(c: char): char {
    if 'A' <= c <= 'Z' then (c as int + 32) as char else c
  }

  function TrimStart(s: string, p: char -> bool): string {
    if s != "" && p(s[0]) then TrimStart(s[1..], p) else s
  }

  function TrimEnd(s: string, p: char -> bool): string {
    if s != "" && p(s[|s| - 1]) then TrimEnd(s[..|s| - 1], p) else s
  }

  function Trim(s: string, p: char -> bool): string {
    TrimEnd(TrimStart(s, p), p)
  }

  function LowerAll(s: string): string {
    seq(|s|, i requires 0 <= i < |s| => Lower(s[i]))
  }

  function NormalizeObject(s: string): string {
    LowerAll(Trim(s, IsSpace))
  }

  // ----- normalize_canonical, for any lower-casing of characters -----

  /** What is needed of the lower case of a character, which may be several: it is in
      lower case, adds no white space, and begins and ends with ASCII punctuation
      only if the character is such punctuation. */
  ghost predicate LowersText(lower: char -> string) {
    forall c :: LowersAt(lower, c)
  }

  ghost predicate LowersAt(lower: char -> string, c: char) {
    var low := lower(c);
    && low != ""
    && (forall i :: 0 <= i < |low| ==> lower(low[i]) == [low[i]])
    && (!IsSpace(c) ==> forall i :: 0 <= i < |low| ==> !IsSpace(low[i]))
    && (IsPunct(low[0]) <==> IsPunct(c)) && (IsPunct(low[|low| - 1]) <==> IsPunct(c))
  }

  function AsciiLower(c: char): string { [Lower(c)] }

  lemma AsciiLowersText()
    ensures LowersText(AsciiLower)
  {
    forall c ensures LowersAt(AsciiLower, c) {}
  }

  /** Output so far, and whether a space is due before the next character. */
  datatype Squeezed = Squeezed(out: string, pending: bool)

  function Squeeze(s: string, lower: char -> string): Squeezed {
    if s == "" then Squeezed("", false)
    else
      var q, c := Squeeze(s[..|s| - 1], lower), s[|s| - 1];
      if IsSpace(c) then Squeezed(q.out, q.out != "")
      else Squeezed(q.out + (if q.pending then " " else "") + lower(c), false)
  }

  function Stripped(s: string): string {
    Trim(Trim(s, IsSpace), IsPunct)
  }

  function Normalize(s: string, lower: char -> string): string {
    Squeeze(Stripped(s), lower).out
  }

  method NormalizeCanonical(s: string, lower: char -> string) returns (out: string)
    ensures out == Normalize(s, lower)
  {
    var trimmed := Stripped(s);
    out := "";
    var pending := false;
    for i := 0 to |trimmed|
      invariant Squeezed(out, pending) == Squeeze(trimmed[..i], lower)
    {
      var ch := trimmed[i];
      assert trimmed[..i + 1][..i] == trimmed[..i];
      if IsSpace(ch) {
        pending := out != "";
      } else {
        if pending {
          out := out + " ";
          pending := false;
        }
        out := out + lower(ch);
      }
    }
    assert trimmed[..|trimmed|] == trimmed;
  }

  // ----- canonical text -----

  ghost predicate Fixed(s: string, lower: char -> string) {
    forall i :: 0 <= i < |s| ==> if IsSpace(s[i]) then s[i] == ' ' else lower(s[i]) == [s[i]]
  }

  /** Lower case, single spaces, none at the ends. */
  ghost predicate Canonical(s: string, lower: char -> string) {
    && (s != "" ==> !IsSpace(s[0]) && !IsSpace(s[|s| - 1]))
    && Fixed(s, lower)
    && (forall i :: 0 <= i < |s| - 1 ==> !(IsSpace(s[i]) && IsSpace(s[i + 1])))
  }

  lemma CanonicalPush(s: string, low: string, spaced: bool, lower: char -> string)
    requires Canonical(s, lower) && (spaced ==> s != "") && low != ""
    requires forall i :: 0 <= i < |low| ==> lower(low[i]) == [low[i]] && !IsSpace(low[i])
    ensures Canonical(s + (if spaced then " " else "") + low, lower)
  {
    var t := s + (if spaced then " " else "") + low;
    var n := |t| - |low|;
    assert forall i :: 0 <= i < |t| ==> t[i] == if i < |s| then s[i] else if i < n then ' ' else low[i - n];
  }

  lemma {:induction false} SqueezeIsCanonical(s: string, lower: char -> string)
    requires LowersText(lower)
    ensures Canonical(Squeeze(s, lower).out, lower)
    ensures Squeeze(s, lower).pending ==> Squeeze(s, lower).out != ""
  {
    if s != "" {
      var front, c := s[..|s| - 1], s[|s| - 1];
      SqueezeIsCanonical(front, lower);
      if !IsSpace(c) {
        assert LowersAt(lower, c);
        CanonicalPush(Squeeze(front, lower).out, lower(c), Squeeze(front, lower).pending, lower);
      }
    }
  }

  /** Text already in lower case does not grow. */
  lemma {:induction false} SqueezeOfFixed(s: string, lower: char -> string)
    requires Fixed(s, lower)
    ensures |Squeeze(s, lower).out| + (if Squeeze(s, lower).pending then 1 else 0) <= |s|
  {
    if s != "" { SqueezeOfFixed(s[..|s| - 1], lower); }
  }

  lemma {:induction false} SqueezeKeepsCanonical(s: string, lower: char -> string)
    requires Fixed(s, lower)
    requires forall i :: 0 <= i < |s| - 1 ==> !(IsSpace(s[i]) && IsSpace(s[i + 1]))
    requires s != "" ==> !IsSpace(s[0])
    ensures Squeeze(s, lower) == if s != "" && IsSpace(s[|s| - 1]) then Squeezed(s[..|s| - 1], true) else Squeezed(s, false)
  {
    if s != "" { SqueezeKeepsCanonical(s[..|s| - 1], lower); }
  }

  lemma {:induction false} TrimStartShorter(s: string, p: char -> bool)
    ensures |TrimStart(s, p)| <= |s| && (TrimStart(s, p) == s <==> s == "" || !p(s[0]))
  {
    if s != "" { TrimStartShorter(s[1..], p); }
  }

  lemma {:induction false} TrimEndShorter(s: string, p: char -> bool)
    ensures |TrimEnd(s, p)| <= |s| && (TrimEnd(s, p) == s <==> s == "" || !p(s[|s| - 1]))
  {
    if s != "" { TrimEndShorter(s[..|s| - 1], p); }
  }

  lemma TrimFixes(s: string, p: char -> bool)
    ensures |Trim(s, p)| <= |s|
    ensures s == "" || (!p(s[0]) && !p(s[|s| - 1])) ==> Trim(s, p) == s
    ensures s != "" && (p(s[0]) || p(s[|s| - 1])) ==> |Trim(s, p)| < |s|
  {
    TrimStartShorter(s, p);
    TrimEndShorter(TrimStart(s, p), p);
    if s != "" && p(s[0]) { TrimStartShorter(s[1..], p); }
    if s != "" && !p(s[0]) && p(s[|s| - 1]) { TrimEndShorter(s[..|s| - 1], p); }
  }

  lemma {:induction false} TrimStartIsSuffix(s: string, p: char -> bool) returns (i: nat)
    ensures i <= |s| && TrimStart(s, p) == s[i..]
  {
    i := 0;
    if s != "" && p(s[0]) {
      i := TrimStartIsSuffix(s[1..], p);
      i := i + 1;
    }
  }

  lemma TrimKeepsFixed(s: string, p: char -> bool, lower: char -> string)
    requires Fixed(s, lower)
    ensures Fixed(Trim(s, p), lower)
  {
    var i := TrimStartIsSuffix(s, p);
    TrimmedEnd(TrimStart(s, p), p);
  }

  /** Neither end is punctuation. */
  ghost predicate CleanEnds(s: string) {
    s == "" || (!IsPunct(s[0]) && !IsPunct(s[|s| - 1]))
  }

  lemma IdempotentOnCleanResults(s: string, lower: char -> string)
    requires LowersText(lower)
    ensures Normalize(Normalize(s, lower), lower) == Normalize(s, lower) <==> CleanEnds(Normalize(s, lower))
  {
    var r := Normalize(s, lower);
    SqueezeIsCanonical(Stripped(s), lower);
    TrimFixes(r, IsSpace);
    TrimFixes(r, IsPunct);
    if CleanEnds(r) {
      SqueezeKeepsCanonical(r, lower);
    } else {
      TrimKeepsFixed(r, IsPunct, lower);
      SqueezeOfFixed(Stripped(r), lower);
    }
  }

  lemma {:induction false} SqueezeSkipsFirst(c: char, s: string, lower: char -> string)
    requires IsSpace(c)
    ensures Squeeze([c] + s, lower) == Squeeze(s, lower)
  {
    if s == "" {
      assert ([c] + s)[..0] == "";
    } else {
      SqueezeSkipsFirst(c, s[..|s| - 1], lower);
      assert ([c] + s)[..|s|] == [c] + s[..|s| - 1];
    }
  }

  lemma {:induction false} SqueezeSkipsStart(s: string, lower: char -> string)
    ensures Squeeze(TrimStart(s, IsSpace), lower) == Squeeze(s, lower)
  {
    if s != "" && IsSpace(s[0]) {
      SqueezeSkipsStart(s[1..], lower);
      SqueezeSkipsFirst(s[0], s[1..], lower);
      assert s == [s[0]] + s[1..];
    }
  }

  lemma {:induction false} SqueezeSkipsEnd(s: string, lower: char -> string)
    ensures Squeeze(TrimEnd(s, IsSpace), lower).out == Squeeze(s, lower).out
  {
    if s != "" && IsSpace(s[|s| - 1]) { SqueezeSkipsEnd(s[..|s| - 1], lower); }
  }

  lemma {:induction false} SqueezeFirst(s: string, lower: char -> string)
    requires LowersText(lower) && s != "" && !IsSpace(s[0])
    ensures lower(s[0]) != "" && Squeeze(s, lower).out != "" && Squeeze(s, lower).out[0] == lower(s[0])[0]
  {
    assert LowersAt(lower, s[0]);
    if |s| == 1 {
      assert s[..0] == "";
    } else {
      SqueezeFirst(s[..|s| - 1], lower);
    }
  }

  /** Squeezing keeps the outer characters of trimmed text, up to case. */
  lemma SqueezeKeepsEnds(s: string, lower: char -> string)
    requires LowersText(lower) && (s != "" ==> !IsSpace(s[0]) && !IsSpace(s[|s| - 1]))
    ensures CleanEnds(Squeeze(s, lower).out) <==> CleanEnds(s)
  {
    if s != "" {
      SqueezeFirst(s, lower);
      assert LowersAt(lower, s[0]) && LowersAt(lower, s[|s| - 1]);
      var out, low := Squeeze(s, lower).out, lower(s[|s| - 1]);
      assert out[|out| - 1] == low[|low| - 1];
    }
  }

  /** Normalising twice is normalising once exactly when stripping the outer
      punctuation uncovers no white space with more punctuation behind it. */
  lemma IdempotentExactly(s: string, lower: char -> string)
    requires LowersText(lower)
    ensures Normalize(Normalize(s, lower), lower) == Normalize(s, lower) <==> CleanEnds(Trim(Stripped(s), IsSpace))
  {
    IdempotentOnCleanResults(s, lower);
    SqueezeSkipsStart(Stripped(s), lower);
    SqueezeSkipsEnd(TrimStart(Stripped(s), IsSpace), lower);
    TrimmedEnds(Stripped(s), IsSpace);
    SqueezeKeepsEnds(Trim(Stripped(s), IsSpace), lower);
  }

  /** The documented idempotence fails where stripping punctuation uncovers a space
      with more punctuation behind it. */
  lemma NotAlwaysIdempotent()
    ensures LowersText(AsciiLower)
    ensures Normalize("! .a", AsciiLower) == ".a" && Normalize(".a", AsciiLower) == "a"
  {
    AsciiLowersText();
    var s := "! .a";
    assert TrimStart(s, IsSpace) == s && TrimEnd(s, IsSpace) == s;
    assert s[1..] == " .a";
    assert TrimStart(s, IsPunct) == " .a";
    assert TrimEnd(" .a", IsPunct) == " .a";
    var t := " .a";
    assert t[..2] == " ." && t[..1] == " " && t[..0] == "";
    assert t[..2][..1] == " " && t[..1][..0] == "";
    assert Squeeze("", AsciiLower) == Squeezed("", false);
    assert Squeeze(" ", AsciiLower) == Squeezed("", false);
    assert Squeeze(" .", AsciiLower) == Squeezed(".", false);
    assert Squeeze(t, AsciiLower) == Squeezed(".a", false);
    var u := ".a";
    assert u[1..] == "a";
    assert TrimStart(u, IsSpace) == u && TrimEnd(u, IsSpace) == u;
    assert TrimStart(u, IsPunct) == "a" && TrimEnd("a", IsPunct) == "a";
    assert "a"[..0] == "";
    assert Squeeze("a", AsciiLower) == Squeezed("a", false);
  }

  /** The key of an object is stable. */
  lemma NormalizeObjectIdempotent(s: string)
    ensures NormalizeObject(NormalizeObject(s)) == NormalizeObject(s)
  {
    TrimmedEnds(s, IsSpace);
    var t := NormalizeObject(s);
    TrimFixes(t, IsSpace);
    assert LowerAll(t) == t;
  }

  lemma {:induction false} TrimmedStart(s: string, p: char -> bool)
    ensures TrimStart(s, p) != "" ==> !p(TrimStart(s, p)[0])
  {
    if s != "" { TrimmedStart(s[1..], p); }
  }

  lemma {:induction false} TrimmedEnd(s: string, p: char -> bool)
    ensures TrimEnd(s, p) != "" ==> !p(TrimEnd(s, p)[|TrimEnd(s, p)| - 1])
    ensures TrimEnd(s, p) <= s
  {
    if s != "" { TrimmedEnd(s[..|s| - 1], p); }
  }

  lemma TrimmedEnds(s: string, p: char -> bool)
    ensures var t := Trim(s, p); t != "" ==> !p(t[0]) && !p(t[|t| - 1])
  {
    TrimmedStart(s, p);
    TrimmedEnd(TrimStart(s, p), p);
  }

  lemma {:induction false} LowerTrimStart(s: string)
    ensures TrimStart(LowerAll(s), IsSpace) == LowerAll(TrimStart(s, IsSpace))
  {
    if s != "" {
      assert LowerAll(s)[1..] == LowerAll(s[1..]);
      LowerTrimStart(s[1..]);
    }
  }

  lemma {:induction false} LowerTrimEnd(s: string)
    ensures TrimEnd(LowerAll(s), IsSpace) == LowerAll(TrimEnd(s, IsSpace))
  {
    if s != "" {
      assert LowerAll(s)[..|s| - 1] == LowerAll(s[..|s| - 1]);
      LowerTrimEnd(s[..|s| - 1]);
    }
  }

  /** Objects that differ in case only have the same key. */
  lemma KeyIgnoresCase(s: string, t: string)
    requires LowerAll(s) == LowerAll(t)
    ensures NormalizeObject(s) == NormalizeObject(t)
  {
    LowerTrimStart(s);
    LowerTrimEnd(TrimStart(s, IsSpace));
    LowerTrimStart(t);
    LowerTrimEnd(TrimStart(t, IsSpace));
  }
}

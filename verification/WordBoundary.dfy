/**
 Substring search with word boundaries on both sides (`contains_at_word_boundary`
 in crates/uniko-bench/src/eval.rs), on UTF-8 bytes.

 The source slices the haystack just past a rejected occurrence.  Slicing inside
 a character panics, and that is modelled as an outcome.
 */
module WordBoundary {
  import opened Wrappers

  type Byte = b: nat | b < 256

  datatype Outcome = Found | NotFound | Panic

  predicate Alphanumeric(b: Byte) {
    0x30 <= b <= 0x39 || 0x41 <= b <= 0x5A || 0x61 <= b <= 0x7A
  }

  predicate Continuation(b: Byte) { 0x80 <= b < 0xC0 }

  /** What validity of UTF-8 is needed for: a continuation byte never starts the
      text nor follows an ASCII byte, and one follows every leading byte. */
  predicate Utf8Shaped(s: seq<Byte>) {
    && (s != [] ==> !Continuation(s[0]))
    && (forall i :: 0 < i < |s| && Continuation(s[i]) ==> s[i - 1] >= 0x80)
    && (forall i :: 0 <= i < |s| && s[i] >= 0xC0 ==> i + 1 < |s| && Continuation(s[i + 1]))
  }

  predicate CharBoundary(s: seq<Byte>, i: nat) {
    i == 0 || i == |s| || (i < |s| && !Continuation(s[i]))
  }

  predicate OccursAt(h: seq<Byte>, n: seq<Byte>, i: nat) {
    i + |n| <= |h| && h[i..i + |n|] == n
  }

  /** The occurrence at `i` has a non-alphanumeric byte or an edge on both sides. */
  predicate StandsAlone(h: seq<Byte>, n: seq<Byte>, i: nat) {
    && OccursAt(h, n, i)
    && (i == 0 || !Alphanumeric(h[i - 1]))
    && (i + |n| == |h| || !Alphanumeric(h[i + |n|]))
  }

  predicate FirstOccurrence(h: seq<Byte>, n: seq<Byte>, i: nat) {
    OccursAt(h, n, i) && forall j :: 0 <= j < i ==> !OccursAt(h, n, j)
  }

  ghost predicate Panics(h: seq<Byte>, n: seq<Byte>) {
    n != [] && n[0] >= 0x80 && exists i :: FirstOccurrence(h, n, i) && !StandsAlone(h, n, i)
  }

  /** The first occurrence from `start` on. */
  function Find(h: seq<Byte>, n: seq<Byte>, start: nat): (r: Option<nat>)
    ensures r.Some? ==> start <= r.value && OccursAt(h, n, r.value)
    ensures forall j :: start <= j && (r.None? || j < r.value) ==> !OccursAt(h, n, j)
    decreases |h| - start
  {
    if start + |n| > |h| then None
    else if OccursAt(h, n, start) then Some(start)
    else Find(h, n, start + 1)
  }

  /** One byte past an occurrence is a character boundary just for ASCII starts. */
  lemma JustPast(h: seq<Byte>, n: seq<Byte>, at: nat)
    requires Utf8Shaped(h) && Utf8Shaped(n) && n != [] && OccursAt(h, n, at)
    ensures CharBoundary(h, at + 1) <==> n[0] < 0x80
  {
    assert h[at] == n[0] by { assert h[at..at + |n|][0] == h[at]; }
  }

  /** The exact meaning of the search.  It answers whether some occurrence,
      overlapping ones included, stands alone; it panics instead exactly when the
      needle starts with a multi-byte character and its first occurrence does not
      stand alone. */
  method ContainsAtWordBoundary(haystack: seq<Byte>, needle: seq<Byte>) returns (r: Outcome)
    requires Utf8Shaped(haystack) && Utf8Shaped(needle)
    ensures needle == [] ==> r == NotFound
    ensures r == Panic <==> Panics(haystack, needle)
    ensures r != Panic && needle != [] ==> (r == Found <==> exists i :: StandsAlone(haystack, needle, i))
  {
    if needle == [] { return NotFound; }
    var n := |needle|;
    var start := 0;
    while true
      invariant start <= |haystack|
      invariant forall i :: 0 <= i < start ==> !StandsAlone(haystack, needle, i)
      invariant needle[0] >= 0x80 ==> start == 0
      decreases |haystack| - start
    {
      var found := Find(haystack, needle, start);
      if found.None? {
        return NotFound;
      }
      var at := found.value;
      JustPast(haystack, needle, at);
      var beforeOk := at == 0 || !Alphanumeric(haystack[at - 1]);
      var afterOk := at + n == |haystack| || !Alphanumeric(haystack[at + n]);
      if beforeOk && afterOk {
        assert StandsAlone(haystack, needle, at);
        return Found;
      }
      start := at + 1;
      if !CharBoundary(haystack, start) {
        assert FirstOccurrence(haystack, needle, at);
        return Panic;
      }
    }
  }

  /** The UTF-8 bytes of the word elan with an acute accent on its e. */
  const ELAN: seq<Byte> := [0xC3, 0xA9, 0x6C, 0x61, 0x6E]

  /** It does panic, and on a needle long enough for its caller: that word behind a letter. */
  lemma PanicWitness()
    ensures |ELAN| >= 4 && Utf8Shaped([0x78] + ELAN) && Utf8Shaped(ELAN) && Panics([0x78] + ELAN, ELAN)
  {
    var h: seq<Byte> := [0x78] + ELAN;
    assert h[1..1 + |ELAN|] == ELAN;
    assert h[0..0 + |ELAN|][0] != ELAN[0];
    assert FirstOccurrence(h, ELAN, 1);
  }
}

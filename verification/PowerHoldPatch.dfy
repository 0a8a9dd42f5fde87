/** The v1.58.2 power-hold patch in the patch finder. */
module PowerHoldPatch {
  import opened Patchfinder
  import opened PatchfinderCorrect
  import opened PowerHold

  const EXACT: bv32 := 0xFFFFFFFF

  function Exactly(words: seq<bv32>): (pairs: seq<Pair>)
    ensures |pairs| == |words|
  {
    seq(|words|, i requires 0 <= i < |words| => Pair(words[i], EXACT))
  }

  /** `hold1582_callback`: a second match panics. */
  function Rewrite1582(stream: seq<bv32>, i: nat, fired: bool): Effect {
    if fired then Panics
    else if i + |HOLD1582_TO| <= |stream| then Returns(true, Overwritten(stream, i, HOLD1582_TO))
    else Returns(true, stream)
  }

  function Patch1582(): Patch {
    Patch(Exactly(HOLD1582_MATCH), true, false, Rewrite1582)
  }

  lemma FitsTheFinder()
    ensures Local([Patch1582()]) && AllWilling([Patch1582()]) && KeepsLength([Patch1582()])
  {
    hide HOLD1582_MATCH, HOLD1582_TO;
    assert |HOLD1582_MATCH| == 6 && |HOLD1582_TO| == 6 by { SixWords(); }
    forall stream: seq<bv32>, i: nat, f: bool ensures LocalAt(Rewrite1582, stream, i, f) && Fires(Rewrite1582, stream, i, f) {
    }
    LocalKeepsLength([Patch1582()]);
  }

  lemma SixWords()
    ensures |HOLD1582_MATCH| == 6 && |HOLD1582_TO| == 6
  {}

  lemma ExactWord(w: bv32, v: bv32)
    ensures WordMatches(w, Pair(v, EXACT)) <==> w == v
  {}

  /** The pattern matches exactly where its words stand. */
  lemma ExactPattern(image: seq<bv32>, at: nat, words: seq<bv32>)
    requires at + |words| <= |image|
    ensures MatchesAt(image, at, Exactly(words)) <==> image[at..at + |words|] == words
  {
    hide WordMatches;
    forall k {:trigger words[k]} | 0 <= k < |words| ensures WordMatches(image[at + k], Exactly(words)[k]) <==> image[at + k] == words[k] {
      ExactWord(image[at + k], words[k]);
    }
    if MatchesAt(image, at, Exactly(words)) {
      forall k | 0 <= k < |words| ensures image[at..at + |words|][k] == words[k] {
        assert WordMatches(image[at + k], Exactly(words)[k]);
      }
    } else {
      var k :| 0 <= k < |words| && !WordMatches(image[at + k], Exactly(words)[k]);
      assert image[at..at + |words|][k] != words[k];
    }
  }

  /** Where the firmware's own words stand. */
  function Found(original: seq<bv32>, n: nat): seq<nat>
    requires n + 5 <= |original|
  {
    Places(original, Exactly(HOLD1582_MATCH), n)
  }

  /** The image with the first of the places rewritten. */
  function Rewritten(original: seq<bv32>, places: seq<nat>): seq<bv32> {
    if places == [] || places[0] + |HOLD1582_TO| > |original| then original
    else Overwritten(original, places[0], HOLD1582_TO)
  }

  ghost predicate InStep(s: Scan, original: seq<bv32>, i: nat, iters: nat) {
    && Ready(s, iters, [Patch1582()]) && i <= iters && Fits(original, iters, [Patch1582()]) && !s.panicked
    && Windowed(s, original, i) && FiredIsMatched(s, original, i, iters, [Patch1582()], 0)
    && i + 5 <= |original| && s.stream == Rewritten(original, Found(original, i))
  }

  lemma OneIndexRewrites(s: Scan, original: seq<bv32>, i: nat, iters: nat)
    requires InStep(s, original, i, iters) && i < iters && Local([Patch1582()]) && AllWilling([Patch1582()])
    requires !OneIndex(s, i, iters, [Patch1582()]).panicked
    ensures InStep(OneIndex(s, i, iters, [Patch1582()]), original, i + 1, iters)
  {
    var patches := [Patch1582()];
    SixWords();
    OneIndexKeepsWindow(s, original, i, iters, patches);
    var p := AtIndexDecides(s, original, i, iters, patches, 0);
    WindowShowsTheOriginal(s, original, i, patches[0]);
    hide MatchesAt, Sees, Overwritten, HOLD1582_MATCH, HOLD1582_TO, Windowed, Local, AllWilling, KeepsLength;
    var t := Try(s, i, patches, 0);
    TryKeepsReady(s, i, iters, patches, 0);
    assert AtIndex(s, i, iters, patches, 0) == AtIndex(t, i, iters, patches, 1) == t;
    OneTimeMore(original, iters, patches, 0, i);
  }

  lemma {:induction false} ScanRewrites(s: Scan, original: seq<bv32>, i: nat, iters: nat)
    requires InStep(s, original, i, iters) && Local([Patch1582()]) && AllWilling([Patch1582()])
    requires !Scanned(s, i, iters, [Patch1582()]).panicked
    ensures InStep(Scanned(s, i, iters, [Patch1582()]), original, iters, iters)
    decreases iters - i
  {
    hide OneIndex, InStep, Local, AllWilling;
    StepIsReady(s, original, i, iters);
    if i < iters {
      var t := OneIndex(s, i, iters, [Patch1582()]);
      OneIndexRewrites(s, original, i, iters);
      ScanRewrites(t, original, i + 1, iters);
    }
  }

  lemma StepIsReady(s: Scan, original: seq<bv32>, i: nat, iters: nat)
    requires InStep(s, original, i, iters)
    ensures Ready(s, iters, [Patch1582()]) && i <= iters && !s.panicked
  {}

  /** The pass with this patch returns exactly when the firmware's words stand at most
      once in the image, and then rewrites that one place and nothing else. */
  lemma PassRewritesTheOnePlace(original: seq<bv32>, iters: nat)
    requires iters + WINDOW <= |original|
    ensures Fits(original, iters, [Patch1582()]) && KeepsLength([Patch1582()])
    ensures var end := Scanned(Start(original, iters, [Patch1582()]), 0, iters, [Patch1582()]);
      && (!end.panicked <==> |Found(original, iters)| <= 1)
      && (!end.panicked ==> end.stream == Rewritten(original, Found(original, iters)))
  {
    var patches := [Patch1582()];
    SixWords();
    FitsTheFinder();
    hide HOLD1582_MATCH, HOLD1582_TO, Local, AllWilling, KeepsLength, Scanned, MatchesAt;
    var start := Start(original, iters, patches);
    NothingAtFirst(original, iters, patches);
    PassReturnsExactlyWhen(original, iters, patches);
    var end := Scanned(start, 0, iters, patches);
    assert Times(original, iters, patches, 0, iters) == |Found(original, iters)|;
    if !end.panicked {
      ScanRewrites(start, original, 0, iters);
    }
  }
}

/** What the pass finds: with callbacks that stay near their match, exactly the places in
    the original image, although the callbacks change the image during the pass. */
module PatchfinderCorrect {
  import opened Patchfinder

  predicate Near(q: int, i: nat) {
    i <= q < i + WINDOW
  }

  /** The callback changes nothing outside the eight words from the match. */
  ghost predicate LocalAt(callback: Callback, stream: seq<bv32>, i: nat, f: bool) {
    var e := callback(stream, i, f);
    e.Returns? ==> |e.stream| == |stream| && forall q :: 0 <= q < |stream| && !Near(q, i) ==> e.stream[q] == stream[q]
  }

  ghost predicate Local(patches: seq<Patch>) {
    forall p, stream, i, f :: 0 <= p < |patches| ==> LocalAt(patches[p].callback, stream, i, f)
  }

  lemma LocalKeepsLength(patches: seq<Patch>)
    requires Local(patches)
    ensures KeepsLength(patches)
  {
    forall p, stream, i, f | 0 <= p < |patches| ensures LengthKept(patches[p].callback, stream, i, f) {
      assert LocalAt(patches[p].callback, stream, i, f);
    }
  }

  /** Before index `i`: the window is the original, and so is all that lies past it. */
  ghost predicate Windowed(s: Scan, original: seq<bv32>, i: nat) {
    && |s.stream| == |original| && i + WINDOW <= |original|
    && s.window == original[i..i + WINDOW]
    && forall q :: i + WINDOW <= q < |original| ==> s.stream[q] == original[q]
  }

  lemma TryKeepsWindow(s: Scan, original: seq<bv32>, i: nat, iters: nat, patches: seq<Patch>, p: nat)
    requires Ready(s, iters, patches) && Local(patches) && i < iters && p < |patches|
    requires Windowed(s, original, i)
    ensures Windowed(Try(s, i, patches, p), original, i)
  {
    hide Sees;
    assert LocalAt(patches[p].callback, s.stream, i, s.fired[p]);
    assert forall q :: i + WINDOW <= q ==> !Near(q, i);
  }

  /** A short pattern is seen exactly where it stands in the original image. */
  lemma WindowShowsTheOriginal(s: Scan, original: seq<bv32>, i: nat, patch: Patch)
    requires |s.window| == WINDOW && Windowed(s, original, i) && Short(patch)
    ensures Sees(s, i, patch) <==> MatchesAt(original, i, patch.pairs)
  {
    hide WordMatches;
    assert forall k {:trigger patch.pairs[k]} :: 0 <= k < |patch.pairs| ==> s.window[0 + k] == original[i + k];
  }

  lemma {:induction false} AtIndexKeepsWindow(s: Scan, original: seq<bv32>, i: nat, iters: nat, patches: seq<Patch>, p: nat)
    requires Ready(s, iters, patches) && Local(patches) && i < iters && p <= |patches|
    requires Windowed(s, original, i)
    ensures Windowed(AtIndex(s, i, iters, patches, p), original, i)
    decreases |patches| - p
  {
    hide Try, Windowed, Local;
    if !s.panicked && p < |patches| {
      TryKeepsReady(s, i, iters, patches, p);
      TryKeepsWindow(s, original, i, iters, patches, p);
      AtIndexKeepsWindow(Try(s, i, patches, p), original, i, iters, patches, p + 1);
    }
  }

  lemma OneIndexKeepsWindow(s: Scan, original: seq<bv32>, i: nat, iters: nat, patches: seq<Patch>)
    requires Ready(s, iters, patches) && Local(patches) && i < iters && Windowed(s, original, i)
    requires !OneIndex(s, i, iters, patches).panicked
    ensures Windowed(OneIndex(s, i, iters, patches), original, i + 1)
  {
    AtIndexKeepsWindow(s, original, i, iters, patches, 0);
  }

  // Which calls are made.

  /** Where the patch was called, in order. */
  function CallsOf(calls: seq<Call>, p: nat): seq<nat> {
    if calls == [] then []
    else CallsOf(calls[..|calls| - 1], p) + if calls[|calls| - 1].patch == p then [calls[|calls| - 1].at] else []
  }

  /** Where the pattern stands before index `n`, in order. */
  function Places(words: seq<bv32>, pairs: seq<Pair>, n: nat): seq<nat>
    requires n + |pairs| <= |words| + 1
  {
    if n == 0 then [] else Places(words, pairs, n - 1) + if MatchesAt(words, n - 1, pairs) then [n - 1] else []
  }

  lemma CallsOfNext(calls: seq<Call>, c: Call, p: nat)
    ensures CallsOf(calls + [c], p) == CallsOf(calls, p) + if c.patch == p then [c.at] else []
  {
    assert (calls + [c])[..|calls|] == calls;
  }

  /** Nothing but its own turn adds a call of a patch. */
  lemma {:induction false} CallsAtIndex(s: Scan, original: seq<bv32>, i: nat, iters: nat, patches: seq<Patch>, q: nat, p: nat)
    requires Ready(s, iters, patches) && Local(patches) && i < iters && q <= |patches| && p < |patches|
    requires Windowed(s, original, i) && Short(patches[p]) && patches[p].enabled
    requires !s.panicked && !AtIndex(s, i, iters, patches, q).panicked
    ensures (CallsOf(AtIndex(s, i, iters, patches, q).calls, p)
      == CallsOf(s.calls, p) + if q <= p && MatchesAt(original, i, patches[p].pairs) then [i] else [])
    decreases |patches| - q
  {
    hide Windowed, Local, CallsOf, MatchesAt;
    if q < |patches| {
      var t := Try(s, i, patches, q);
      TryKeepsReady(s, i, iters, patches, q);
      TryKeepsWindow(s, original, i, iters, patches, q);
      CallsOfTry(s, original, i, iters, patches, q, p);
      CallsAtIndex(t, original, i, iters, patches, q + 1, p);
    }
  }

  lemma CallsOfTry(s: Scan, original: seq<bv32>, i: nat, iters: nat, patches: seq<Patch>, q: nat, p: nat)
    requires Ready(s, iters, patches) && i < iters && q < |patches| && p < |patches|
    requires Windowed(s, original, i) && Short(patches[p]) && patches[p].enabled
    requires !Try(s, i, patches, q).panicked && !s.panicked
    ensures (CallsOf(Try(s, i, patches, q).calls, p)
      == CallsOf(s.calls, p) + if q == p && MatchesAt(original, i, patches[p].pairs) then [i] else [])
  {
    hide CallsOf, MatchesAt, Sees, Short;
    WindowShowsTheOriginal(s, original, i, patches[p]);
    var t := Try(s, i, patches, q);
    if |t.calls| > |s.calls| {
      CallsOfNext(s.calls, t.calls[|s.calls|], p);
    }
  }

  lemma {:induction false} CallsFrom(s: Scan, original: seq<bv32>, i: nat, iters: nat, patches: seq<Patch>, p: nat)
    requires Ready(s, iters, patches) && Local(patches) && i <= iters && p < |patches|
    requires Windowed(s, original, i) && Short(patches[p]) && patches[p].enabled
    requires !s.panicked && !Scanned(s, i, iters, patches).panicked
    requires CallsOf(s.calls, p) == Places(original, patches[p].pairs, i)
    ensures CallsOf(Scanned(s, i, iters, patches).calls, p) == Places(original, patches[p].pairs, iters)
    decreases iters - i
  {
    if i < iters {
      hide Windowed, Local, CallsOf, MatchesAt, AtIndex;
      var t := OneIndex(s, i, iters, patches);
      OneIndexKeepsWindow(s, original, i, iters, patches);
      CallsAtIndex(s, original, i, iters, patches, 0, p);
      CallsFrom(t, original, i + 1, iters, patches, p);
    }
  }

  /** A short patch is called exactly where its pattern stands in the original image,
      once each and in order. */
  lemma CalledWhereItStands(original: seq<bv32>, iters: nat, patches: seq<Patch>, p: nat)
    requires Local(patches) && KeepsLength(patches) && Fits(original, iters, patches)
    requires p < |patches| && Short(patches[p]) && patches[p].enabled
    requires !Scanned(Start(original, iters, patches), 0, iters, patches).panicked
    ensures (CallsOf(Scanned(Start(original, iters, patches), 0, iters, patches).calls, p)
      == Places(original, patches[p].pairs, iters))
  {
    CallsFrom(Start(original, iters, patches), original, 0, iters, patches, p);
  }

  // Patches that may fire once.

  /** The callback asks if the patch has fired, and panics if it has. */
  ghost predicate Once(callback: Callback) {
    forall stream, i :: AcceptsOnce(callback, stream, i)
  }

  predicate AcceptsOnce(callback: Callback, stream: seq<bv32>, i: nat) {
    callback(stream, i, true).Returns? ==> !callback(stream, i, true).fired
  }

  function Accepted(calls: seq<Call>, p: nat): nat {
    if calls == [] then 0
    else Accepted(calls[..|calls| - 1], p) + if calls[|calls| - 1].patch == p && calls[|calls| - 1].fired then 1 else 0
  }

  lemma AcceptedNext(calls: seq<Call>, c: Call, p: nat)
    ensures Accepted(calls + [c], p) == Accepted(calls, p) + if c.patch == p && c.fired then 1 else 0
  {
    assert (calls + [c])[..|calls|] == calls;
  }

  predicate Recorded(s: Scan, p: nat)
    requires p < |s.fired|
  {
    Accepted(s.calls, p) == if s.fired[p] then 1 else 0
  }

  lemma TryKeepsRecord(s: Scan, i: nat, patches: seq<Patch>, q: nat, p: nat)
    requires |s.window| == WINDOW && |s.fired| == |patches| && q < |patches| && i + |patches[q].pairs| <= |s.stream|
    requires p < |patches| && Once(patches[p].callback) && Recorded(s, p)
    ensures Recorded(Try(s, i, patches, q), p)
  {
    hide Accepted, Sees;
    var t := Try(s, i, patches, q);
    assert AcceptsOnce(patches[p].callback, s.stream, i);
    if |t.calls| > |s.calls| {
      AcceptedNext(s.calls, t.calls[|s.calls|], p);
    }
  }

  lemma {:induction false} AtIndexKeepsRecord(s: Scan, i: nat, iters: nat, patches: seq<Patch>, q: nat, p: nat)
    requires Ready(s, iters, patches) && i < iters && q <= |patches|
    requires p < |patches| && Once(patches[p].callback) && Recorded(s, p)
    ensures Recorded(AtIndex(s, i, iters, patches, q), p)
    decreases |patches| - q
  {
    hide Try, Recorded, Once;
    if !s.panicked && q < |patches| {
      TryKeepsReady(s, i, iters, patches, q);
      TryKeepsRecord(s, i, patches, q, p);
      AtIndexKeepsRecord(Try(s, i, patches, q), i, iters, patches, q + 1, p);
    }
  }

  lemma {:induction false} ScanKeepsRecord(s: Scan, i: nat, iters: nat, patches: seq<Patch>, p: nat)
    requires Ready(s, iters, patches) && i <= iters
    requires p < |patches| && Once(patches[p].callback) && Recorded(s, p)
    ensures Recorded(Scanned(s, i, iters, patches), p)
    decreases iters - i
  {
    hide AtIndex, Once;
    if !s.panicked && i < iters {
      AtIndexKeepsRecord(s, i, iters, patches, 0, p);
      ScanKeepsRecord(OneIndex(s, i, iters, patches), i + 1, iters, patches, p);
    }
  }

  /** When the pass returns, a required patch of this kind fired exactly once. No
      condition on the other patches, on the lengths or on what the callbacks write. */
  lemma RequiredFiredExactlyOnce(original: seq<bv32>, iters: nat, patches: seq<Patch>, p: nat)
    requires KeepsLength(patches) && Fits(original, iters, patches)
    requires p < |patches| && patches[p].required && Once(patches[p].callback)
    requires Complete(Scanned(Start(original, iters, patches), 0, iters, patches), patches)
    ensures Accepted(Scanned(Start(original, iters, patches), 0, iters, patches).calls, p) == 1
  {
    ScanKeepsRecord(Start(original, iters, patches), 0, iters, patches, p);
  }

  // When the pass returns.

  /** The callback fires at its first call and panics at its second. */
  ghost predicate Willing(callback: Callback) {
    forall stream, i, f :: Fires(callback, stream, i, f)
  }

  predicate Fires(callback: Callback, stream: seq<bv32>, i: nat, f: bool) {
    var e := callback(stream, i, f);
    if f then e.Panics? else e.Returns? && e.fired
  }

  ghost predicate AllWilling(patches: seq<Patch>) {
    forall p :: 0 <= p < |patches| ==> Short(patches[p]) && patches[p].enabled && Willing(patches[p].callback)
  }

  /** How often the pattern stands before index `n`. */
  ghost function Times(original: seq<bv32>, iters: nat, patches: seq<Patch>, p: nat, n: nat): nat
    requires Fits(original, iters, patches) && p < |patches| && n <= iters
  {
    |Places(original, patches[p].pairs, n)|
  }

  lemma {:induction false} TimesGrows(original: seq<bv32>, iters: nat, patches: seq<Patch>, p: nat, n: nat, m: nat)
    requires Fits(original, iters, patches) && p < |patches| && n <= m <= iters
    ensures Times(original, iters, patches, p, n) <= Times(original, iters, patches, p, m)
    decreases m
  {
    hide MatchesAt;
    if n < m {
      TimesGrows(original, iters, patches, p, n, m - 1);
    }
  }

  lemma OneTimeMore(original: seq<bv32>, iters: nat, patches: seq<Patch>, p: nat, i: nat)
    requires Fits(original, iters, patches) && p < |patches| && i < iters
    ensures (Times(original, iters, patches, p, i + 1)
      == Times(original, iters, patches, p, i) + if MatchesAt(original, i, patches[p].pairs) then 1 else 0)
  {}

  /** Before the turn of patch `q` at index `i`: who has fired is who has matched, and
      nobody has matched twice. */
  ghost predicate FiredIsMatched(s: Scan, original: seq<bv32>, i: nat, iters: nat, patches: seq<Patch>, q: nat)
    requires |s.fired| == |patches| && Fits(original, iters, patches) && i <= iters && (q > 0 ==> i < iters)
  {
    && (forall p :: 0 <= p < |patches| && p < q ==> Times(original, iters, patches, p, i + 1) == if s.fired[p] then 1 else 0)
    && (forall p :: 0 <= p < |patches| && q <= p ==> Times(original, iters, patches, p, i) == if s.fired[p] then 1 else 0)
  }

  lemma TryDecides(s: Scan, original: seq<bv32>, i: nat, iters: nat, patches: seq<Patch>, q: nat)
    requires Ready(s, iters, patches) && AllWilling(patches) && Fits(original, iters, patches) && i < iters && q < |patches|
    requires Windowed(s, original, i) && FiredIsMatched(s, original, i, iters, patches, q) && !s.panicked
    ensures |Try(s, i, patches, q).fired| == |patches|
    ensures Try(s, i, patches, q).panicked ==> Times(original, iters, patches, q, i + 1) == 2
    ensures !Try(s, i, patches, q).panicked ==> FiredIsMatched(Try(s, i, patches, q), original, i, iters, patches, q + 1)
  {
    hide MatchesAt, Sees, Short, Times, KeepsLength;
    assert Fires(patches[q].callback, s.stream, i, s.fired[q]);
    WindowShowsTheOriginal(s, original, i, patches[q]);
    OneTimeMore(original, iters, patches, q, i);
  }

  lemma {:induction false} AtIndexDecides(s: Scan, original: seq<bv32>, i: nat, iters: nat, patches: seq<Patch>, q: nat) returns (p: nat)
    requires Ready(s, iters, patches) && Local(patches) && AllWilling(patches) && Fits(original, iters, patches)
    requires i < iters && q <= |patches|
    requires Windowed(s, original, i) && FiredIsMatched(s, original, i, iters, patches, q) && !s.panicked
    ensures var t := AtIndex(s, i, iters, patches, q);
      if t.panicked then p < |patches| && Times(original, iters, patches, p, i + 1) == 2
      else FiredIsMatched(t, original, i, iters, patches, |patches|)
    decreases |patches| - q
  {
    hide Windowed, Local, AllWilling, FiredIsMatched, Times, KeepsLength, Try;
    p := q;
    if q < |patches| {
      var t := Try(s, i, patches, q);
      TryKeepsReady(s, i, iters, patches, q);
      TryKeepsWindow(s, original, i, iters, patches, q);
      TryDecides(s, original, i, iters, patches, q);
      if !t.panicked {
        p := AtIndexDecides(t, original, i, iters, patches, q + 1);
      }
    }
  }

  lemma {:induction false} ScanDecides(s: Scan, original: seq<bv32>, i: nat, iters: nat, patches: seq<Patch>) returns (p: nat)
    requires Ready(s, iters, patches) && Local(patches) && AllWilling(patches) && Fits(original, iters, patches)
    requires i <= iters
    requires Windowed(s, original, i) && FiredIsMatched(s, original, i, iters, patches, 0) && !s.panicked
    ensures var t := Scanned(s, i, iters, patches);
      if t.panicked then p < |patches| && Times(original, iters, patches, p, iters) >= 2
      else FiredIsMatched(t, original, iters, iters, patches, 0)
    decreases iters - i
  {
    hide Windowed, Local, AllWilling, Times, Fits, KeepsLength, AtIndex;
    p := 0;
    if i < iters {
      var t := OneIndex(s, i, iters, patches);
      var r := AtIndexDecides(s, original, i, iters, patches, 0);
      if t.panicked {
        p := r;
        TimesGrows(original, iters, patches, p, i + 1, iters);
      } else {
        OneIndexKeepsWindow(s, original, i, iters, patches);
        p := ScanDecides(t, original, i + 1, iters, patches);
      }
    }
  }

  lemma NothingAtFirst(original: seq<bv32>, iters: nat, patches: seq<Patch>)
    requires Fits(original, iters, patches) && KeepsLength(patches)
    ensures FiredIsMatched(Start(original, iters, patches), original, 0, iters, patches, 0)
  {}

  /** A required set of short patches that fire once: the pass returns exactly when every
      pattern stands at most once in the original image, and the required ones do. */
  lemma PassReturnsExactlyWhen(original: seq<bv32>, iters: nat, patches: seq<Patch>)
    requires Local(patches) && KeepsLength(patches) && AllWilling(patches) && Fits(original, iters, patches)
    ensures var end := Scanned(Start(original, iters, patches), 0, iters, patches);
      !end.panicked && Complete(end, patches)
      <==> forall p :: 0 <= p < |patches| ==>
        Times(original, iters, patches, p, iters) <= 1 && (patches[p].required ==> Times(original, iters, patches, p, iters) == 1)
  {
    hide Times, Local, AllWilling, KeepsLength, Scanned;
    var start := Start(original, iters, patches);
    NothingAtFirst(original, iters, patches);
    var p := ScanDecides(start, original, 0, iters, patches);
    var end := Scanned(start, 0, iters, patches);
    if end.panicked {
      assert Times(original, iters, patches, p, iters) >= 2;
    }
  }

  /** A pattern is refused when it is registered exactly if no word can match it. */
  lemma HopelessPatterns(pair: Pair)
    ensures pair.value & pair.mask == pair.value <==> exists w :: WordMatches(w, pair)
  {
    if pair.value & pair.mask == pair.value {
      assert WordMatches(pair.value, pair);
    }
  }
}

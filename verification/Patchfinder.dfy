/** The patch finder: one pass over an image with a window of words read ahead, while the
    callbacks of the patches change the image under it. */
module Patchfinder {
  const WINDOW: nat := 8

  datatype Pair = Pair(value: bv32, mask: bv32)

  datatype Effect = Panics | Returns(fired: bool, stream: seq<bv32>)

  /** What a callback does with the image at a match, knowing if the patch has fired. */
  type Callback = (seq<bv32>, nat, bool) -> Effect

  datatype Patch = Patch(pairs: seq<Pair>, enabled: bool, required: bool, callback: Callback)

  /** One call of a callback: which patch, where, and its answer. */
  datatype Call = Call(patch: nat, at: nat, fired: bool)

  datatype Scan = Scan(stream: seq<bv32>, window: seq<bv32>, fired: seq<bool>, calls: seq<Call>, panicked: bool)

  predicate WordMatches(w: bv32, pair: Pair) {
    w & pair.mask == pair.value
  }

  /** The pattern in `words` from `at` on. */
  predicate MatchesAt(words: seq<bv32>, at: nat, pairs: seq<Pair>)
    requires at + |pairs| <= |words|
  {
    forall k :: 0 <= k < |pairs| ==> WordMatches(words[at + k], pairs[k])
  }

  predicate Short(patch: Patch) {
    |patch.pairs| < WINDOW
  }

  /** The words that a patch can look at from the last index. */
  ghost predicate Fits(stream: seq<bv32>, iters: nat, patches: seq<Patch>) {
    && iters + WINDOW <= |stream|
    && forall p :: 0 <= p < |patches| ==> iters + |patches[p].pairs| <= |stream|
  }

  /** A callback changes words, not the length of the image. */
  predicate LengthKept(callback: Callback, stream: seq<bv32>, i: nat, f: bool) {
    var e := callback(stream, i, f);
    e.Returns? ==> |e.stream| == |stream|
  }

  ghost predicate KeepsLength(patches: seq<Patch>) {
    forall p, stream, i, f :: 0 <= p < |patches| ==> LengthKept(patches[p].callback, stream, i, f)
  }

  ghost predicate Ready(s: Scan, iters: nat, patches: seq<Patch>) {
    && |s.window| == WINDOW && |s.fired| == |patches| && Fits(s.stream, iters, patches) && KeepsLength(patches)
  }

  /** Short patterns are looked for in the window, long ones in the image. */
  predicate Sees(s: Scan, i: nat, patch: Patch)
    requires |s.window| == WINDOW && i + |patch.pairs| <= |s.stream|
  {
    if Short(patch) then MatchesAt(s.window, 0, patch.pairs) else MatchesAt(s.stream, i, patch.pairs)
  }

  function Try(s: Scan, i: nat, patches: seq<Patch>, p: nat): Scan
    requires |s.window| == WINDOW && |s.fired| == |patches| && p < |patches| && i + |patches[p].pairs| <= |s.stream|
  {
    if !patches[p].enabled || !Sees(s, i, patches[p]) then s
    else
      match patches[p].callback(s.stream, i, s.fired[p])
      case Panics => s.(panicked := true)
      case Returns(fired, stream) =>
        s.(stream := stream, fired := if fired then s.fired[p := true] else s.fired, calls := s.calls + [Call(p, i, fired)])
  }

  lemma TryKeepsReady(s: Scan, i: nat, iters: nat, patches: seq<Patch>, p: nat)
    requires Ready(s, iters, patches) && i < iters && p < |patches|
    ensures Ready(Try(s, i, patches, p), iters, patches)
  {
    hide MatchesAt;
    assert LengthKept(patches[p].callback, s.stream, i, s.fired[p]);
  }

  /** All patches at one index, from the p-th on. A panic ends everything. */
  ghost function AtIndex(s: Scan, i: nat, iters: nat, patches: seq<Patch>, p: nat): (t: Scan)
    requires Ready(s, iters, patches) && i < iters && p <= |patches|
    ensures Ready(t, iters, patches)
    decreases |patches| - p
  {
    if s.panicked || p == |patches| then s
    else
      TryKeepsReady(s, i, iters, patches, p);
      AtIndex(Try(s, i, patches, p), i, iters, patches, p + 1)
  }

  function Slide(s: Scan, i: nat): Scan
    requires |s.window| == WINDOW && i + WINDOW < |s.stream|
  {
    s.(window := s.window[1..] + [s.stream[i + WINDOW]])
  }

  /** One word further. The window keeps its last word when the image ends there. */
  ghost function OneIndex(s: Scan, i: nat, iters: nat, patches: seq<Patch>): (t: Scan)
    requires Ready(s, iters, patches) && i < iters
    ensures Ready(t, iters, patches)
  {
    var t := AtIndex(s, i, iters, patches, 0);
    if t.panicked then t else Slide(t, i)
  }

  ghost function Scanned(s: Scan, i: nat, iters: nat, patches: seq<Patch>): (t: Scan)
    requires Ready(s, iters, patches) && i <= iters
    ensures Ready(t, iters, patches)
    decreases iters - i
  {
    if s.panicked || i == iters then s else Scanned(OneIndex(s, i, iters, patches), i + 1, iters, patches)
  }

  ghost function Start(stream: seq<bv32>, iters: nat, patches: seq<Patch>): (s: Scan)
    requires Fits(stream, iters, patches) && KeepsLength(patches)
    ensures Ready(s, iters, patches)
  {
    Scan(stream, stream[..WINDOW], seq(|patches|, _ => false), [], false)
  }

  /** No required patch is missing. */
  predicate Complete(s: Scan, patches: seq<Patch>)
    requires |s.fired| == |patches|
  {
    forall p :: 0 <= p < |patches| && patches[p].required ==> s.fired[p]
  }

  method MatchWord(w: bv32, pair: Pair) returns (same: bool)
    ensures same == WordMatches(w, pair)
  {
    same := w & pair.mask == pair.value;
  }

  /** Word by word, from the window or from the image by the length of the pattern. */
  method MaskMatch(patch: Patch, ahead: array<bv32>, image: array<bv32>, index: nat) returns (matches: bool)
    requires ahead.Length == WINDOW && index + |patch.pairs| <= image.Length
    ensures matches == if Short(patch) then MatchesAt(ahead[..], 0, patch.pairs) else MatchesAt(image[..], index, patch.pairs)
  {
    hide WordMatches;
    var i := 0;
    while i < |patch.pairs|
      invariant i <= |patch.pairs|
      invariant forall k :: 0 <= k < i ==> WordMatches(if Short(patch) then ahead[..][0 + k] else image[..][index + k], patch.pairs[k])
    {
      var w := if |patch.pairs| < 8 then ahead[i] else image[index + i];
      var same := MatchWord(w, patch.pairs[i]);
      if !same {
        assert !WordMatches(if Short(patch) then ahead[..][0 + i] else image[..][index + i], patch.pairs[i]);
        return false;
      }
      i := i + 1;
    }
    matches := true;
  }

  /** Runs one patch. `alive` is false after a panic. */
  method RunPatch(patches: seq<Patch>, p: nat, ahead: array<bv32>, image: array<bv32>, iters: nat, index: nat, fired: seq<bool>, ghost s: Scan)
    returns (alive: bool, now: seq<bool>, ghost t: Scan)
    requires Ready(s, iters, patches) && index < iters && p < |patches| && !s.panicked
    requires image != ahead && s.stream == image[..] && s.window == ahead[..] && s.fired == fired
    modifies image
    ensures t == Try(s, index, patches, p) && Ready(t, iters, patches)
    ensures t.stream == image[..] && t.window == ahead[..] && t.fired == now && alive == !t.panicked
  {
    hide MatchesAt, Short, WordMatches;
    TryKeepsReady(s, index, iters, patches, p);
    alive, now, t := true, fired, Try(s, index, patches, p);
    if patches[p].enabled {
      var matches := MaskMatch(patches[p], ahead, image, index);
      if matches {
        match patches[p].callback(image[..], index, fired[p])
        case Panics =>
          alive := false;
        case Returns(f, stream) =>
          assert |stream| == image.Length by { assert LengthKept(patches[p].callback, image[..], index, fired[p]); }
          forall k | 0 <= k < image.Length {
            image[k] := stream[k];
          }
          assert image[..] == stream;
          now := if f then fired[p := true] else fired;
      }
    }
  }

  method SlideWindow(ahead: array<bv32>, image: array<bv32>, index: nat)
    requires ahead.Length == WINDOW && index + WINDOW < image.Length && ahead != image
    modifies ahead
    ensures ahead[..] == old(ahead[1..]) + [image[index + WINDOW]]
  {
    var i := 0;
    while i < WINDOW - 1
      invariant i <= WINDOW - 1
      invariant forall k :: 0 <= k < i ==> ahead[k] == old(ahead[1..])[k]
      invariant forall k :: i <= k < WINDOW ==> ahead[k] == old(ahead[..])[k]
    {
      ahead[i] := ahead[i + 1];
      i := i + 1;
    }
    ahead[WINDOW - 1] := image[index + WINDOW];
  }

  /** The pass as the source runs it. `ok` is false after a panic. */
  method ApplyPatches(image: array<bv32>, iters: nat, patches: seq<Patch>, setRequired: bool)
    returns (ok: bool, fired: seq<bool>, ghost end: Scan)
    requires Fits(image[..], iters, patches) && KeepsLength(patches)
    modifies image
    ensures end == Scanned(Start(old(image[..]), iters, patches), 0, iters, patches)
    ensures image[..] == end.stream && fired == end.fired
    ensures ok <==> !end.panicked && (setRequired ==> Complete(end, patches))
  {
    hide Try, Sees, MatchesAt, WordMatches;
    ghost var start := Start(image[..], iters, patches);
    end := start;
    var ahead := new bv32[WINDOW];
    var n := 0;
    while n < WINDOW
      invariant n <= WINDOW && image[..] == start.stream && ahead[..n] == start.stream[..n]
    {
      ahead[n] := image[n];
      n := n + 1;
    }
    assert ahead[..] == start.window;
    fired := seq(|patches|, _ => false);
    var index := 0;
    while index < iters
      invariant index <= iters && Ready(end, iters, patches) && !end.panicked
      invariant end.stream == image[..] && end.window == ahead[..] && end.fired == fired
      invariant Scanned(end, index, iters, patches) == Scanned(start, 0, iters, patches)
    {
      ghost var before := end;
      var p := 0;
      while p < |patches|
        invariant p <= |patches| && Ready(end, iters, patches) && !end.panicked
        invariant end.stream == image[..] && end.window == ahead[..] && end.fired == fired
        invariant AtIndex(end, index, iters, patches, p) == AtIndex(before, index, iters, patches, 0)
      {
        ok, fired, end := RunPatch(patches, p, ahead, image, iters, index, fired, end);
        if !ok {
          assert Scanned(before, index, iters, patches) == end;
          return;
        }
        p := p + 1;
      }
      SlideWindow(ahead, image, index);
      end := Slide(end, index);
      index := index + 1;
    }
    ok := true;
    if setRequired {
      var p := 0;
      while p < |patches|
        invariant p <= |patches|
        invariant forall k :: 0 <= k < p && patches[k].required ==> fired[k]
      {
        if patches[p].required && !fired[p] {
          ok := false;
          return;
        }
        p := p + 1;
      }
    }
  }
}

/** Replacing a file on the card: write path.new, remove path, rename. Power can
    fail between any two steps and inside the write. */
module StorageSave {
  import opened Bytes

  const STORAGE_ENOTFOUND: int := -30
  const STORAGE_ESIZE: int := -31
  const STORAGE_EIO: int := -32
  const NAME_CAP: nat := 256

  type Files = map<string, seq<byte>>

  datatype Loaded = Whole(content: seq<byte>) | Error(rc: int)

  function NewName(path: string): string {
    path + ".new"
  }

  predicate NameFits(path: string) {
    |path| + 5 <= NAME_CAP
  }

  function LoadOne(files: Files, path: string, max: nat): Loaded {
    if path !in files then Error(STORAGE_ENOTFOUND)
    else if |files[path]| == 0 || |files[path]| > max then Error(STORAGE_ESIZE)
    else Whole(files[path])
  }

  /** A load from a card that reads without errors. */
  function Load(files: Files, path: string, max: nat): Loaded {
    var r := LoadOne(files, path, max);
    if r != Error(STORAGE_ENOTFOUND) || !NameFits(path) then r else LoadOne(files, NewName(path), max)
  }

  /** What a load of a file with this content returns. */
  function Content(content: seq<byte>, max: nat): Loaded {
    if |content| == 0 || |content| > max then Error(STORAGE_ESIZE) else Whole(content)
  }

  /** How a step on the card goes. A step that fails may still have taken effect,
      and a failed rename may leave both names. */
  datatype Fate = Done | Lost | DoneButFailed | Halfway

  /** The file system. `fate` decides the outcome of each step, and `put` how many
      bytes a write stores. `seen` records every state that a power failure could
      leave behind. */
  class Volume {
    var files: Files
    var steps: nat
    const fate: nat -> Fate
    const put: nat -> nat
    ghost var seen: seq<Files>

    constructor (files: Files, fate: nat -> Fate, put: nat -> nat)
      ensures this.files == files && this.fate == fate && this.put == put && seen == [files]
    {
      this.files, this.fate, this.put := files, fate, put;
      steps, seen := 0, [files];
    }

    method Become(next: Files)
      modifies this
      ensures files == next && seen == old(seen) + [next] && steps == old(steps)
    {
      files := next;
      seen := seen + [next];
    }

    /** f_open with FA_CREATE_ALWAYS: an existing file becomes empty. */
    method Create(name: string) returns (ok: bool)
      modifies this
      ensures files == if fate(old(steps)) == Lost then old(files) else old(files)[name := []]
      ensures ok <==> fate(old(steps)) == Done
      ensures seen == old(seen) + [files] && steps == old(steps) + 1
    {
      var f := fate(steps);
      steps := steps + 1;
      ok := f == Done;
      Become(if f == Lost then files else files[name := []]);
    }

    /** f_write then f_close on a new file. The content grows byte by byte. */
    method WriteAndClose(name: string, src: seq<byte>) returns (ok: bool)
      requires name in files && files[name] == []
      modifies this
      ensures exists n :: 0 <= n <= |src| && files == old(files)[name := src[..n]]
      ensures ok <==> fate(old(steps)) == Done && put(old(steps)) >= |src|
      ensures ok ==> files == old(files)[name := src]
      ensures old(seen) <= seen && steps == old(steps) + 1
      ensures forall k :: |old(seen)| <= k < |seen| ==>
        exists n :: 0 <= n <= |src| && seen[k] == old(files)[name := src[..n]]
    {
      var f := fate(steps);
      var end := if put(steps) < |src| then put(steps) else |src|;
      steps := steps + 1;
      ghost var was, before := files, seen;
      assert files == files[name := src[..0]];
      for n := 0 to end
        invariant files == was[name := src[..n]]
        invariant before <= seen && steps == old(steps) + 1
        invariant forall k :: |before| <= k < |seen| ==> exists i :: 0 <= i <= |src| && seen[k] == was[name := src[..i]]
      {
        Become(files[name := src[..n + 1]]);
        assert was[name := src[..n]][name := src[..n + 1]] == was[name := src[..n + 1]];
      }
      assert files == was[name := src[..end]];
      assert end == |src| ==> src[..end] == src;
      ok := f == Done && end == |src|;
    }

    /** f_unlink. Success also stands for FR_NO_FILE. */
    method Unlink(name: string) returns (ok: bool)
      modifies this
      ensures ok <==> fate(old(steps)) == Done || name !in old(files)
      ensures files == if fate(old(steps)) == Lost then old(files) else old(files) - {name}
      ensures seen == old(seen) + [files] && steps == old(steps) + 1
    {
      var f := fate(steps);
      steps := steps + 1;
      ok := f == Done || name !in files;
      Become(if f == Lost then files else files - {name});
    }

    /** f_rename, which refuses to replace a file. */
    method Rename(from: string, to: string) returns (ok: bool)
      requires from in files && from != to
      modifies this
      ensures ok <==> fate(old(steps)) == Done && to !in old(files)
      ensures files == if to in old(files) || fate(old(steps)) == Lost then old(files)
        else if fate(old(steps)) == Halfway then old(files)[to := old(files)[from]]
        else (old(files) - {from})[to := old(files)[from]]
      ensures seen == old(seen) + [files] && steps == old(steps) + 1
    {
      var f := fate(steps);
      steps := steps + 1;
      ok := f == Done && to !in files;
      if f == Lost || to in files {
        Become(files);
      } else if f == Halfway {
        Become(files[to := files[from]]);
      } else {
        Become((files - {from})[to := files[from]]);
      }
    }
  }

  /** A state in which a load returns the old content or the new. */
  predicate Safe(s: Files, path: string, max: nat, old': Loaded, src: seq<byte>) {
    Load(s, path, max) == old' || Load(s, path, max) == Content(src, max)
  }

  lemma OldIsSafe(was: Files, s: Files, path: string, max: nat, src: seq<byte>)
    requires path in was && path in s && s[path] == was[path]
    ensures Safe(s, path, max, Load(was, path, max), src)
  {}

  lemma NewIsSafe(s: Files, path: string, max: nat, old': Loaded, src: seq<byte>)
    requires NameFits(path)
    requires if path in s then s[path] == src else NewName(path) in s && s[NewName(path)] == src
    ensures Safe(s, path, max, old', src)
  {}

  /** The states that the steps of a save go through while `path` is still there. */
  ghost predicate Writing(was: Files, s: Files, path: string, src: seq<byte>) {
    s == was || exists n :: 0 <= n <= |src| && s == was[NewName(path) := src[..n]]
  }

  /** The states after `path` is gone and before and after the rename. */
  ghost predicate Switching(was: Files, s: Files, path: string, src: seq<byte>) {
    var tmp := NewName(path);
    || s == was[tmp := src] - {path}
    || s == was[tmp := src][path := src]
    || s == (was - {tmp})[path := src]
  }

  lemma EveryStateIsSafe(was: Files, s: Files, path: string, max: nat, src: seq<byte>)
    requires NameFits(path) && Reachable(was, s, path, src)
    ensures path in was ==> Safe(s, path, max, Load(was, path, max), src)
  {
    assert NewName(path) != path;
    if path in was {
      if Switching(was, s, path, src) {
        NewIsSafe(s, path, max, Load(was, path, max), src);
      } else {
        OldIsSafe(was, s, path, max, src);
      }
    }
  }

  /** The four steps of a save go well, the removal also when there is nothing to remove. */
  predicate AllWell(v: Volume, t: nat, path: string, len: nat, present: bool) {
    && NameFits(path)
    && v.fate(t) == Done
    && v.fate(t + 1) == Done && v.put(t + 1) >= len
    && (v.fate(t + 2) == Done || !present)
    && v.fate(t + 3) == Done
  }

  /** The new file cannot be written whole, and its removal takes effect. */
  predicate WriteFails(v: Volume, t: nat, len: nat) {
    v.fate(t) == Done && (v.fate(t + 1) != Done || v.put(t + 1) < len) && v.fate(t + 2) != Lost
  }

  /** Replaces the file at path. Starting with the file present, a load finds the whole
      old or the whole new content after any interruption and after any failure. 0 means
      that path holds the new content, and is returned exactly when every step goes well.
      A write that fails leaves no part of the new file. */
  method Save(v: Volume, path: string, src: seq<byte>, ghost max: nat) returns (rc: int)
    modifies v
    ensures rc == if AllWell(v, old(v.steps), path, |src|, path in old(v.files)) then 0 else STORAGE_EIO
    ensures rc == 0 ==> v.files == (old(v.files) - {NewName(path)})[path := src]
    ensures var t := old(v.steps);
      && NameFits(path) && v.fate(t) == Done && !(v.fate(t + 1) == Done && v.put(t + 1) >= |src|) && v.fate(t + 2) != Lost ==>
        v.files == old(v.files) - {NewName(path)}
    ensures old(v.seen) <= v.seen
    ensures v.seen == old(v.seen) ==> v.files == old(v.files) && !NameFits(path)
    ensures v.seen != old(v.seen) ==> v.files == v.seen[|v.seen| - 1]
    ensures path in old(v.files) ==> forall k :: |old(v.seen)| <= k < |v.seen| ==>
      Safe(v.seen[k], path, max, Load(old(v.files), path, max), src)
    ensures NameFits(path) && v.fate(old(v.steps)) != Lost ==>
      |v.seen| > |old(v.seen)| && v.seen[|old(v.seen)|] == old(v.files)[NewName(path) := []]
  {
    hide Safe, Load;
    if |path| + 5 > NAME_CAP {
      return STORAGE_EIO;
    }
    ghost var was, n := v.files, |v.seen|;
    rc := SaveNew(v, path, src);
    forall k | n <= k < |v.seen| && path in was ensures Safe(v.seen[k], path, max, Load(was, path, max), src) {
      EveryStateIsSafe(was, v.seen[k], path, max, src);
    }
  }

  /** A state that a save can leave behind. */
  ghost predicate Reachable(was: Files, s: Files, path: string, src: seq<byte>) {
    Writing(was, s, path, src) || Switching(was, s, path, src) || s == was - {NewName(path)}
  }

  method SaveNew(v: Volume, path: string, src: seq<byte>) returns (rc: int)
    requires NameFits(path)
    modifies v
    ensures rc == if AllWell(v, old(v.steps), path, |src|, path in old(v.files)) then 0 else STORAGE_EIO
    ensures rc == 0 ==> v.files == (old(v.files) - {NewName(path)})[path := src]
    ensures NameFits(path) && WriteFails(v, old(v.steps), |src|) ==> v.files == old(v.files) - {NewName(path)}
    ensures |old(v.seen)| < |v.seen| && old(v.seen) <= v.seen && v.files == v.seen[|v.seen| - 1]
    ensures forall k :: |old(v.seen)| <= k < |v.seen| ==> Reachable(old(v.files), v.seen[k], path, src)
    ensures v.fate(old(v.steps)) != Lost ==> v.seen[|old(v.seen)|] == old(v.files)[NewName(path) := []]
  {
    hide Writing;
    var tmp := NewName(path);
    assert tmp != path;
    ghost var was := v.files;
    var ok := WriteNew(v, path, src);
    if !ok {
      return STORAGE_EIO;
    }
    ok := v.Unlink(path);
    if !ok {
      return STORAGE_EIO;
    }
    assert v.files == was[tmp := src] - {path};
    ok := v.Rename(tmp, path);
    rc := if ok then 0 else STORAGE_EIO;
  }

  /** The part that leaves `path` alone. */
  method WriteNew(v: Volume, path: string, src: seq<byte>) returns (ok: bool)
    requires NameFits(path)
    modifies v
    ensures ok ==> v.files == old(v.files)[NewName(path) := src] && Writing(old(v.files), v.files, path, src)
    ensures ok <==> v.fate(old(v.steps)) == Done && v.fate(old(v.steps) + 1) == Done && v.put(old(v.steps) + 1) >= |src|
    ensures ok ==> v.steps == old(v.steps) + 2
    ensures WriteFails(v, old(v.steps), |src|) ==> v.files == old(v.files) - {NewName(path)}
    ensures |old(v.seen)| < |v.seen| && old(v.seen) <= v.seen && (!ok ==> v.files == v.seen[|v.seen| - 1])
    ensures forall k :: |old(v.seen)| <= k < |v.seen| ==> Reachable(old(v.files), v.seen[k], path, src)
    ensures v.fate(old(v.steps)) != Lost ==> v.seen[|old(v.seen)|] == old(v.files)[NewName(path) := []]
  {
    hide Writing, Switching;
    var tmp := NewName(path);
    ghost var was := v.files;
    Written(was, was, path, src, 0);
    Untouched(was, path, src);
    ok := v.Create(tmp);
    if !ok {
      return;
    }
    ghost var created, n1 := v.files, |v.seen|;
    ok := v.WriteAndClose(tmp, src);
    forall k | n1 <= k < |v.seen| ensures Reachable(was, v.seen[k], path, src) {
      var n :| 0 <= n <= |src| && v.seen[k] == created[tmp := src[..n]];
      Written(was, created, path, src, n);
    }
    if !ok {
      ghost var n :| 0 <= n <= |src| && v.files == created[tmp := src[..n]];
      Written(was, created, path, src, n);
      var _ := v.Unlink(tmp);
      return;
    }
    Written(was, created, path, src, |src|);
    assert src[..|src|] == src;
  }

  lemma Untouched(was: Files, path: string, src: seq<byte>)
    ensures Writing(was, was, path, src)
  {}

  /** A partly written path.new, over whatever path.new held before. */
  lemma Written(was: Files, created: Files, path: string, src: seq<byte>, n: nat)
    requires n <= |src| && (created == was || created == was[NewName(path) := []])
    ensures Writing(was, created[NewName(path) := src[..n]], path, src)
    ensures created[NewName(path) := src[..n]] - {NewName(path)} == was - {NewName(path)}
    ensures n == 0 ==> created[NewName(path) := src[..n]] == was[NewName(path) := []]
    ensures n == |src| ==> created[NewName(path) := src[..n]] == was[NewName(path) := src]
  {
    assert created[NewName(path) := src[..n]] == was[NewName(path) := src[..n]];
    assert n == |src| ==> src[..n] == src;
  }

  /** A first write leaves path.new empty, whatever was there: without `path`, the
      only copy is lost. */
  lemma TruncationLosesTheOnlyCopy(was: Files, path: string, max: nat, src: seq<byte>)
    requires NameFits(path) && path !in was && Load(was, path, max).Whole? && Content(src, max).Whole?
    ensures !Safe(was[NewName(path) := []], path, max, Load(was, path, max), src)
  {
    assert NewName(path) != path;
  }

  /** No interruption or failure can lose the content, under any fate. */
  ghost predicate NeverLoses(was: Files, path: string, max: nat, src: seq<byte>) {
    NameFits(path) ==> forall s: Files ::
      Writing(was, s, path, src) || Switching(was, s, path, src) ==> Safe(s, path, max, Load(was, path, max), src)
  }

  /** For every content that can be loaded before and after: a save can be
      interrupted at any point if and only if `path` itself is present at the
      start. A complete path.new alone is not enough. */
  lemma SaveNeedsThePath(was: Files, path: string, max: nat, src: seq<byte>)
    requires Load(was, path, max).Whole? && Content(src, max).Whole?
    ensures NeverLoses(was, path, max, src) <==> path in was
  {
    if path in was {
      forall s: Files | NameFits(path) && (Writing(was, s, path, src) || Switching(was, s, path, src))
        ensures Safe(s, path, max, Load(was, path, max), src)
      {
        EveryStateIsSafe(was, s, path, max, src);
      }
    } else {
      TruncationLosesTheOnlyCopy(was, path, max, src);
      Written(was, was, path, src, 0);
    }
  }
}

/** Saving and loading the table through the one text buffer. */
module SettingsStore {
  import opened Bytes
  import opened Settings
  import opened SettingsFile
  import opened SettingsRoundTrip
  import opened Ini

  /** The section is in the first `n` keys. */
  predicate Seen(t: seq<Key>, n: nat, section: string)
    requires n <= |t|
  {
    exists j :: 0 <= j < n && t[j].section == section
  }

  /** The keys from `j` on whose section is not in the first `n`. */
  ghost function Unseen(t: seq<Key>, n: nat, j: nat): seq<Key>
    requires n <= |t| && j <= |t|
    decreases |t| - j
  {
    if j == |t| then [] else (if Seen(t, n, t[j].section) then [] else [t[j]]) + Unseen(t, n, j + 1)
  }

  lemma {:induction false} UnseenDrops(t: seq<Key>, i: nat, j: nat)
    requires i < j <= |t|
    ensures Drop(Unseen(t, i, j), t[i].section) == Unseen(t, i + 1, j)
    decreases |t| - j
  {
    hide Seen, Keep, Drop;
    DropNone(t[i].section);
    if j < |t| {
      var section, k := t[i].section, t[j];
      UnseenDrops(t, i, j + 1);
      SeenNext(t, i, k.section);
      DropOne(k, section);
      KeepJoin(if Seen(t, i, k.section) then [] else [k], Unseen(t, i, j + 1), section);
    }
  }

  lemma DropNone(section: string)
    ensures Drop([], section) == [] && Keep([], section) == []
  {}

  lemma DropOne(k: Key, section: string)
    ensures Drop([k], section) == (if k.section == section then [] else [k]) && Drop([], section) == []
    ensures Keep([k], section) == (if k.section == section then [k] else []) && Keep([], section) == []
  {}

  lemma SeenNext(t: seq<Key>, i: nat, section: string)
    requires i < |t|
    ensures Seen(t, i + 1, section) <==> Seen(t, i, section) || t[i].section == section
  {}

  lemma {:induction false} UnseenKeeps(t: seq<Key>, i: nat, j: nat, section: string)
    requires i <= |t| && j <= |t|
    ensures Keep(Unseen(t, i, j), section) == if Seen(t, i, section) then [] else Keep(t[j..], section)
    decreases |t| - j
  {
    if j < |t| {
      hide Seen;
      UnseenKeeps(t, i, j + 1, section);
      KeepJoin(if Seen(t, i, t[j].section) then [] else [t[j]], Unseen(t, i, j + 1), section);
      DropOne(t[j], section);
      assert t[j..][1..] == t[j + 1..];
    }
  }

  lemma {:induction false} UnseenSame(t: seq<Key>, i: nat, j: nat)
    requires i < |t| && j <= |t| && Seen(t, i, t[i].section)
    ensures Unseen(t, i, j) == Unseen(t, i + 1, j)
    decreases |t| - j
  {
    if j < |t| {
      UnseenSame(t, i, j + 1);
      SeenNext(t, i, t[j].section);
    }
  }

  /** What is left to print at key `i`: nothing new if its section is printed, and else
      the whole group. */
  lemma NextGroup(t: seq<Key>, i: nat)
    requires i < |t|
    ensures var s := t[i].section;
      (Printed(Unseen(t, i, i))
      == if Seen(t, i, s) then Printed(Unseen(t, i + 1, i + 1))
         else Header(s) + Lines(Keep(t[i..], s)) + Printed(Unseen(t, i + 1, i + 1)))
  {
    hide Seen, Header, Lines;
    var s := t[i].section;
    var rest := Unseen(t, i, i + 1);
    if Seen(t, i, s) {
      UnseenSame(t, i, i + 1);
      assert [] + rest == rest;
    } else {
      UnseenKeeps(t, i, i, s);
      UnseenDrops(t, i, i + 1);
      assert Unseen(t, i, i) == [t[i]] + rest && ([t[i]] + rest)[1..] == rest;
      assert [] + Drop(rest, s) == Drop(rest, s);
    }
  }

  lemma {:induction false} UnseenAll(t: seq<Key>, j: nat)
    requires j <= |t|
    ensures Unseen(t, 0, j) == t[j..]
    decreases |t| - j
  {
    if j < |t| {
      UnseenAll(t, j + 1);
    }
  }

  /** `snprintf` at `len`: as much as fits before the last place, a NUL, and the whole
      length as the result. */
  method Append(text: array<char>, len: nat, s: string) returns (n: nat)
    requires text.Length == TEXT_MAX && len < TEXT_MAX
    modifies text
    ensures n == |s|
    ensures text[..len] == old(text[..len])
    ensures text[len..Min(len + |s|, TEXT_MAX - 1)] == s[..Min(|s|, TEXT_MAX - 1 - len)]
    ensures text[Min(len + |s|, TEXT_MAX - 1)] == NUL
  {
    var fit := Min(|s|, TEXT_MAX - 1 - len);
    var i := 0;
    while i < fit
      invariant i <= fit && text[..len] == old(text[..len]) && text[len..len + i] == s[..i]
    {
      text[len + i] := s[i];
      i := i + 1;
    }
    text[len + fit] := NUL;
    n := |s|;
  }

  /** The buffer while it is filled: `out` is all the text so far, and the buffer holds
      it as long as it is shorter than the buffer. */
  ghost predicate Filled(text: array<char>, len: nat, out: string)
    reads text
  {
    text.Length == TEXT_MAX && len == |out| && (len < TEXT_MAX ==> text[..len] == out)
  }

  method Put(text: array<char>, len: nat, s: string, ghost out: string) returns (n: nat)
    requires Filled(text, len, out) && len < TEXT_MAX
    modifies text
    ensures n == len + |s| && Filled(text, n, out + s)
  {
    n := Append(text, len, s);
    n := len + n;
    if n < TEXT_MAX {
      assert text[..n] == text[..len] + text[len..n];
    }
  }

  /** One section: the header, and its keys from key `i` on. `len` is below the buffer's
      size whenever it is subtracted from it. */
  method PutSection(keys: array<Key>, count: nat, i: nat, text: array<char>, len: nat, ghost out: string)
    returns (n: nat, ghost now: string)
    requires i < count <= keys.Length && Filled(text, len, out) && len < TEXT_MAX
    modifies text
    ensures var s := keys[i].section; var all := out + Header(s) + Lines(Keep(keys[i..count], s));
      Filled(text, n, now) && now <= all && (n < TEXT_MAX ==> now == all)
  {
    hide Header, Lines, Keep, LineText;
    ghost var t := keys[..count];
    var section := keys[i].section;
    n, now := len, out;
    NoHeader();
    if section != "" {
      n := Put(text, len, Header(section), out);
    }
    now := out + Header(section);
    ghost var all := out + Header(section) + Lines(Keep(t[i..], section));
    var j := i;
    while j < count && n < TEXT_MAX
      invariant i <= j <= count && Filled(text, n, now)
      invariant now + Lines(Keep(t[j..], section)) == all
    {
      LineNext(t, j, section);
      if keys[j].section == section {
        n := Put(text, n, LineText(keys[j]), now);
        now := now + LineText(keys[j]);
      }
      j := j + 1;
    }
    NoLines(t[j..], section);
    assert keys[i..count] == t[i..];
  }

  lemma NoHeader()
    ensures Header("") == ""
  {}

  lemma NoLines(t: seq<Key>, section: string)
    ensures t == [] ==> Lines(Keep(t, section)) == ""
  {}

  lemma LineNext(t: seq<Key>, j: nat, section: string)
    requires j < |t|
    ensures (Lines(Keep(t[j..], section))
      == (if t[j].section == section then LineText(t[j]) else "") + Lines(Keep(t[j + 1..], section)))
  {
    hide LineText;
    assert t[j..][1..] == t[j + 1..];
    var rest := Keep(t[j + 1..], section);
    if t[j].section == section {
      assert ([t[j]] + rest)[1..] == rest;
    } else {
      assert [] + rest == rest;
    }
  }

  /** The text handed to the storage, or none when it would not fit. */
  method Save(keys: array<Key>, count: nat, text: array<char>) returns (saved: Option<string>)
    requires count <= keys.Length && text.Length == TEXT_MAX
    modifies text
    ensures saved == if |Printed(keys[..count])| < TEXT_MAX then Some(Printed(keys[..count])) else None
  {
    hide Printed, Unseen, Header, Lines, Keep;
    ghost var t := keys[..count];
    ghost var out := "";
    var len: nat, i: nat := 0, 0;
    UnseenAll(t, 0);
    while i < count
      invariant i <= count && len < TEXT_MAX && Filled(text, len, out)
      invariant out + Printed(Unseen(t, i, i)) == Printed(t)
    {
      NextGroup(t, i);
      var first := true;
      var j := 0;
      while j < i
        invariant j <= i && first == !Seen(t, j, t[i].section) && Filled(text, len, out)
      {
        SeenNext(t, j, t[i].section);
        if keys[j].section == keys[i].section {
          first := false;
        }
        j := j + 1;
      }
      if first {
        assert keys[i..count] == t[i..];
        ghost var group := Header(t[i].section) + Lines(Keep(t[i..], t[i].section));
        assert Printed(t) == out + group + Printed(Unseen(t, i + 1, i + 1));
        assert out + group == out + Header(t[i].section) + Lines(Keep(t[i..], t[i].section));
        len, out := PutSection(keys, count, i, text, len, out);
        if len >= TEXT_MAX {
          assert |Printed(t)| >= |out|;
          return None;
        }
      }
      i := i + 1;
    }
    NothingUnseen(t);
    assert keys[..count] == t;
    assert out == Printed(t);
    saved := Some(text[..len]);
  }

  lemma NothingUnseen(t: seq<Key>)
    ensures Printed(Unseen(t, |t|, |t|)) == ""
  {}

  /** Reads the text back: the parser runs, and each key that it finds goes to the table's
      own `set` before the next line is read. */
  method Load(table: Table, buf: array<char>, ghost n: nat)
    requires table.Valid() && EndsAt(buf[..], 0, n)
    modifies table, table.keys, buf
    ensures table.Valid() && table.Contents() == Loaded(old(buf[..])[..n])
  {
    hide Parse, EndsAt, Set, SectionBefore, Forget, Built;
    ghost var source := buf[..];
    ghost var section := "";
    table.keyCount := 0;
    var pointer, line: nat, t, calls, stop := Empty, 0, 0, [], false;
    NulHere(source, 0, n);
    NoSectionYet(source);
    BuiltNone();
    assert source[0..n] == source[..n];
    while !stop && buf[t] != NUL
      invariant table.Valid() && table.Contents() == Built(Forget(calls)) && t < buf.Length
      invariant !stop ==> Between(buf[..], source, n, t, pointer, section)
      invariant !stop ==> Parse(Quiet, source[t..n], section, line, calls) == Parse(Quiet, source[..n], "", 0, [])
      invariant stop ==> Parse(Quiet, source[..n], "", 0, []).0 == calls
      decreases !stop, n - t
    {
      NotAtEnd(buf[..], source, n, t, pointer, section);
      var made, next, rc;
      stop, rc, next, pointer, made, section := OneLine(buf, Quiet, t, pointer, line, calls, source, n, section);
      if |made| > |calls| {
        var c := made[|calls|];
        assert made == calls + [c];
        BuiltNext(calls, c);
        table.SetKey(c.section, c.key, Some(c.value));
      }
      calls, line := made, line + 1;
      if !stop {
        t := next;
      }
    }
    if !stop {
      AllRead(source, buf[..], t, n);
      ParseNothing(Quiet, source[t..n], section, line, calls);
    }
  }

  lemma BuiltNone()
    ensures Built(Forget([])) == []
  {}

  lemma BuiltNext(calls: seq<Call>, c: Call)
    ensures Built(Forget(calls + [c])) == Set(Built(Forget(calls)), c.section, c.key, Some(c.value))
  {
    hide Set;
    ForgetNext(calls, c);
    var keys := Forget(calls) + [KeyOf(c)];
    assert keys[..|keys| - 1] == Forget(calls);
  }
}

/** What the parser makes of the printed table. */
module SettingsRoundTrip {
  import opened Bytes
  import opened Settings
  import opened SettingsFile
  import opened Ini

  /** Nothing that trimming would take away. */
  predicate Clean(s: string) {
    s == "" || (!IsBlank(s[0]) && !IsTail(s[|s| - 1]))
  }

  predicate Printable(s: string) {
    Clean(s) && '\n' !in s && NUL !in s
  }

  /** A key that a line of the file can carry. */
  predicate WellFormed(k: Key) {
    && Fits(k) && Printable(k.section) && Printable(k.name) && Printable(k.value)
    && ']' !in k.section && '=' !in k.name
    && (k.name != "" ==> k.name[0] != '[' && k.name[0] != ';' && k.name[0] != '#')
  }

  ghost predicate AllWellFormed(t: seq<Key>) {
    forall i :: 0 <= i < |t| ==> WellFormed(t[i])
  }

  function Quiet(calls: seq<Call>, call: Call): int { 0 }

  lemma CleanIsTrimmed(s: string)
    requires Clean(s)
    ensures Trim(s) == s
  {}

  lemma KeyLine(name: string, value: string)
    requires Clean(name) && Clean(value) && '=' !in name
    requires name != "" ==> name[0] != '[' && name[0] != ';' && name[0] != '#'
    ensures LineOf(name + "=" + value) == Pair(name, value)
  {
    hide Trim, IndexOf;
    var s := name + "=" + value;
    CleanIsTrimmed(name);
    CleanIsTrimmed(value);
    CleanIsTrimmed(s);
    IndexIs(s, '=', |name|);
    assert s[..|name|] == name && s[|name| + 1..] == value;
  }

  lemma GoodKeyLine(k: Key)
    requires WellFormed(k)
    ensures LineOf(k.name + "=" + k.value) == Pair(k.name, k.value)
  {
    hide LineOf, Clean;
    KeyLine(k.name, k.value);
  }

  lemma SectionLine(section: string)
    requires Clean(section) && ']' !in section
    ensures LineOf("[" + section + "]") == Section(section)
  {
    hide Trim, IndexOf;
    var s := "[" + section + "]";
    CleanIsTrimmed(section);
    CleanIsTrimmed(s);
    IndexIs(s, ']', |section| + 1);
    assert s[1..|section| + 1] == section;
  }

  /** A line and its newline at the front of a text. */
  lemma FrontLine(h: Handler, s: string, rest: string, section: string, line: nat, calls: seq<Call>)
    requires '\n' !in s
    ensures Parse(h, s + "\n" + rest, section, line, calls) ==
      match LineOf(s)
      case Ignored => Parse(h, rest, section, line + 1, calls)
      case Invalid => (calls, line + 1)
      case Section(name) => Parse(h, rest, name, line + 1, calls)
      case Pair(key, value) =>
        var call := Call(section, key, value, line + 1);
        if h(calls, call) != 0 then (calls + [call], h(calls, call)) else Parse(h, rest, section, line + 1, calls + [call])
  {
    hide LineOf, Parse, IndexOf;
    var text := s + "\n" + rest;
    IndexIs(text, '\n', |s|);
    ParseLine(h, text, section, line, calls, |s|);
    assert text[..|s|] == s && text[|s| + 1..] == rest;
  }

  /** The calls as keys, without the line numbers. */
  function Forget(calls: seq<Call>): seq<Key> {
    if calls == [] then [] else Forget(calls[..|calls| - 1]) + [KeyOf(calls[|calls| - 1])]
  }

  function KeyOf(c: Call): Key {
    Key(c.section, c.key, c.value)
  }

  lemma ForgetNext(calls: seq<Call>, c: Call)
    ensures Forget(calls + [c]) == Forget(calls) + [KeyOf(c)]
  {
    assert (calls + [c])[..|calls|] == calls;
  }

  /** The same keys under another section. */
  function Moved(t: seq<Key>, section: string): (u: seq<Key>)
    ensures |u| == |t|
  {
    if t == [] then [] else [t[0].(section := section)] + Moved(t[1..], section)
  }

  /** What the parser sees: keys without a section follow the section before them. */
  function Shown(t: seq<Key>, section: string): seq<Key>
    decreases |t|
  {
    if t == [] then []
    else
      HeadIsKept(t);
      var s := t[0].section;
      var now := if s == "" then section else s;
      Moved(Keep(t, s), now) + Shown(Drop(t, s), now)
  }

  lemma {:induction false} LinesParse(t: seq<Key>, rest: string, section: string, line: nat, calls: seq<Call>)
    returns (made: seq<Call>)
    requires AllWellFormed(t)
    ensures Parse(Quiet, Lines(t) + rest, section, line, calls) == Parse(Quiet, rest, section, line + |t|, made)
    ensures Forget(made) == Forget(calls) + Moved(t, section)
    decreases |t|
  {
    hide Parse, LineOf, WellFormed, Forget, Lines, Moved;
    made := calls;
    if t == [] {
      NothingMoved(rest, section, Forget(calls));
    } else {
      var k := t[0];
      assert WellFormed(k);
      GoodKeyLine(k);
      NoNewline(k);
      FirstOfLines(t, rest);
      FirstMoved(t, section, Forget(calls));
      FrontLine(Quiet, k.name + "=" + k.value, Lines(t[1..]) + rest, section, line, calls);
      var call := Call(section, k.name, k.value, line + 1);
      ForgetNext(calls, call);
      made := LinesParse(t[1..], rest, section, line + 1, calls + [call]);
    }
  }

  lemma NothingMoved(rest: string, section: string, before: seq<Key>)
    ensures Lines([]) + rest == rest && before + Moved([], section) == before
  {}

  lemma FirstMoved(t: seq<Key>, section: string, before: seq<Key>)
    requires t != []
    ensures before + Moved(t, section) == before + [Key(section, t[0].name, t[0].value)] + Moved(t[1..], section)
  {}

  lemma FirstOfLines(t: seq<Key>, rest: string)
    requires t != []
    ensures Lines(t) + rest == (t[0].name + "=" + t[0].value) + "\n" + (Lines(t[1..]) + rest)
  {
    var line := (t[0].name + "=" + t[0].value) + "\n";
    assert Lines(t) == line + Lines(t[1..]);
    Regrouped(line, Lines(t[1..]), rest);
  }

  lemma NoNewline(k: Key)
    requires WellFormed(k)
    ensures '\n' !in k.name + "=" + k.value && '\n' !in "[" + k.section + "]"
  {}

  lemma HeaderParses(k: Key, rest: string, section: string, line: nat, calls: seq<Call>) returns (l: nat)
    requires WellFormed(k)
    ensures (Parse(Quiet, Header(k.section) + rest, section, line, calls)
      == Parse(Quiet, rest, if k.section == "" then section else k.section, l, calls))
  {
    hide Parse, LineOf;
    l := line;
    if k.section == "" {
      assert Header(k.section) + rest == rest;
    } else {
      l := line + 1;
      SectionLine(k.section);
      NoNewline(k);
      assert Header(k.section) + rest == ("[" + k.section + "]") + "\n" + rest;
      FrontLine(Quiet, "[" + k.section + "]", rest, section, line, calls);
    }
  }

  lemma PartsWellFormed(t: seq<Key>, section: string)
    requires AllWellFormed(t)
    ensures AllWellFormed(Keep(t, section)) && AllWellFormed(Drop(t, section))
  {
    hide WellFormed;
    KeepMembers(t, section);
    forall i | 0 <= i < |Keep(t, section)| ensures WellFormed(Keep(t, section)[i]) {
      assert Keep(t, section)[i] in t;
    }
    forall i | 0 <= i < |Drop(t, section)| ensures WellFormed(Drop(t, section)[i]) {
      assert Drop(t, section)[i] in t;
    }
  }

  lemma PrintedStep(t: seq<Key>)
    requires t != []
    ensures var s := t[0].section;
      Printed(t) == Header(s) + (Lines(Keep(t, s)) + Printed(Drop(t, s))) && |Drop(t, s)| < |t|
  {
    HeadIsKept(t);
    var s := t[0].section;
    assert Header(s) + Lines(Keep(t, s)) + Printed(Drop(t, s)) == Header(s) + (Lines(Keep(t, s)) + Printed(Drop(t, s)));
  }

  lemma ShownStep(t: seq<Key>, section: string, before: seq<Key>)
    requires t != []
    ensures var s := t[0].section; var now := if s == "" then section else s;
      before + Shown(t, section) == before + Moved(Keep(t, s), now) + Shown(Drop(t, s), now)
  {
    HeadIsKept(t);
  }

  lemma EmptyParses(t: seq<Key>, section: string, line: nat, calls: seq<Call>)
    requires t == []
    ensures Parse(Quiet, Printed(t), section, line, calls) == (calls, 0)
    ensures Forget(calls) + Shown(t, section) == Forget(calls)
  {
    hide Forget;
  }

  /** Every well-formed table prints to a text that parses without an error, to the keys
      as shown. */
  lemma {:induction false} PrintedParses(t: seq<Key>, section: string, line: nat, calls: seq<Call>)
    requires AllWellFormed(t)
    ensures Parse(Quiet, Printed(t), section, line, calls).1 == 0
    ensures Forget(Parse(Quiet, Printed(t), section, line, calls).0) == Forget(calls) + Shown(t, section)
    decreases |t|
  {
    hide *;
    if t == [] {
      EmptyParses(t, section, line, calls);
    } else {
      var s := t[0].section;
      var now := if s == "" then section else s;
      PrintedStep(t);
      ShownStep(t, section, Forget(calls));
      PartsWellFormed(t, s);
      FirstWellFormed(t);
      var rest := Printed(Drop(t, s));
      var l := HeaderParses(t[0], Lines(Keep(t, s)) + rest, section, line, calls);
      var made := LinesParse(Keep(t, s), rest, now, l, calls);
      PrintedParses(Drop(t, s), now, l + |Keep(t, s)|, made);
    }
  }

  lemma FirstWellFormed(t: seq<Key>)
    requires AllWellFormed(t) && t != []
    ensures WellFormed(t[0])
  {}

  // Loading.

  /** The table after `set` for every key, in order. */
  function Built(keys: seq<Key>): seq<Key> {
    if keys == [] then []
    else
      var k := keys[|keys| - 1];
      Set(Built(keys[..|keys| - 1]), k.section, k.name, Some(k.value))
  }

  function Loaded(text: string): seq<Key> {
    Built(Forget(Parse(Quiet, text, "", 0, []).0))
  }

  /** Distinct keys that fit are loaded as they are. */
  lemma {:induction false} BuiltAsTheyAre(keys: seq<Key>)
    requires Distinct(keys) && AllFit(keys) && |keys| <= KEYS_MAX
    ensures Built(keys) == keys
  {
    if keys != [] {
      hide Set, Fits;
      var n := |keys| - 1;
      var k := keys[n];
      BuiltAsTheyAre(keys[..n]);
      assert Fits(k);
      forall i | 0 <= i < n ensures !IsKey(keys[..n][i], k.section, k.name) {
        assert !IsKey(keys[n], keys[i].section, keys[i].name);
      }
      SetNew(keys[..n], k);
      assert keys[..n] + [k] == keys;
    }
  }

  lemma SetNew(t: seq<Key>, k: Key)
    requires Fits(k) && |t| < KEYS_MAX && forall i :: 0 <= i < |t| ==> !IsKey(t[i], k.section, k.name)
    ensures Set(t, k.section, k.name, Some(k.value)) == t + [k]
  {
    FindIs(t, k.section, k.name, |t|);
  }

  /** The keys without a section come first, if there are any. */
  ghost predicate NamelessFirst(t: seq<Key>) {
    forall i :: 0 <= i < |t| && t[i].section == "" ==> t[0].section == ""
  }

  lemma {:induction false} MovedToItself(t: seq<Key>, section: string)
    requires forall k :: k in t ==> k.section == section
    ensures Moved(t, section) == t
  {
    if t != [] {
      assert t[0] in t;
      MovedToItself(t[1..], section);
    }
  }

  lemma {:induction false} ShownIsRegrouped(t: seq<Key>, section: string)
    requires forall k :: k in t && k.section == "" ==> section == "" && t[0].section == ""
    ensures Shown(t, section) == Regroup(t)
    decreases |t|
  {
    if t != [] {
      HeadIsKept(t);
      var s := t[0].section;
      KeepMembers(t, s);
      assert t[0] in t;
      MovedToItself(Keep(t, s), s);
      ShownIsRegrouped(Drop(t, s), if s == "" then section else s);
    }
  }

  predicate Named(k: Key) {
    k.section != ""
  }

  lemma {:induction false} MovedMembers(t: seq<Key>, section: string)
    requires section != ""
    ensures forall k :: k in Moved(t, section) ==> Named(k)
  {
    if t != [] {
      MovedMembers(t[1..], section);
    }
  }

  lemma {:induction false} ShownAreNamed(t: seq<Key>, section: string)
    requires section != "" || (t != [] && t[0].section != "")
    ensures forall k :: k in Shown(t, section) ==> Named(k)
    decreases |t|
  {
    if t != [] {
      HeadIsKept(t);
      var s := t[0].section;
      var now := if s == "" then section else s;
      MovedMembers(Keep(t, s), now);
      ShownAreNamed(Drop(t, s), now);
    }
  }

  lemma {:induction false} BuiltAreNamed(keys: seq<Key>)
    requires forall k :: k in keys ==> Named(k)
    ensures forall k :: k in Built(keys) ==> Named(k)
  {
    if keys != [] {
      var k := keys[|keys| - 1];
      assert k in keys;
      BuiltAreNamed(keys[..|keys| - 1]);
      assert Named(k);
    }
  }

  lemma NamelessNotFound(t: seq<Key>, name: string)
    requires forall k :: k in t ==> Named(k)
    ensures Get(t, "", name) == None
  {
    forall i | 0 <= i < |t| ensures !IsKey(t[i], "", name) {
      assert Named(t[i]);
    }
    FindIs(t, "", name, |t|);
  }

  ghost predicate SameAnswers(t: seq<Key>, u: seq<Key>) {
    forall section, name :: Get(t, section, name) == Get(u, section, name)
  }

  /** A table that the settings code can hold, with keys that the file can carry. */
  ghost predicate GoodTable(t: seq<Key>) {
    AllWellFormed(t) && Distinct(t) && |t| <= KEYS_MAX
  }

  lemma LoadedIsBuilt(t: seq<Key>)
    requires GoodTable(t)
    ensures Loaded(Printed(t)) == Built(Shown(t, ""))
  {
    hide Printed, Shown, Parse;
    PrintedParses(t, "", 0, []);
    assert Forget([]) + Shown(t, "") == Shown(t, "");
  }

  /** Save and load give the regrouped table, exactly when keys without a section are not
      printed below a header. */
  lemma LoadAfterSave(t: seq<Key>)
    requires GoodTable(t) && NamelessFirst(t)
    ensures Loaded(Printed(t)) == Regroup(t) && SameAnswers(Loaded(Printed(t)), t)
    ensures Printed(Loaded(Printed(t))) == Printed(t)
  {
    hide Printed, Shown, Regroup, Get, Built, Loaded;
    LoadedIsBuilt(t);
    forall k | k in t && k.section == "" ensures t[0].section == "" {
      var i :| 0 <= i < |t| && t[i] == k;
    }
    ShownIsRegrouped(t, "");
    RegroupIsDistinct(t);
    RegroupMembers(t);
    RegroupFits(t);
    BuiltAsTheyAre(Regroup(t));
    forall section, name ensures Get(Regroup(t), section, name) == Get(t, section, name) {
      SameKeysSameGet(Regroup(t), t, section, name);
    }
    RegroupTwice(t);
  }

  lemma RegroupFits(t: seq<Key>)
    requires AllWellFormed(t)
    ensures AllFit(Regroup(t))
  {
    RegroupMembers(t);
    forall i | 0 <= i < |Regroup(t)| ensures Fits(Regroup(t)[i]) {
      assert Regroup(t)[i] in t;
      var j :| 0 <= j < |t| && t[j] == Regroup(t)[i];
      assert WellFormed(t[j]);
    }
  }

  lemma SaveLosesNameless(t: seq<Key>)
    requires GoodTable(t) && !NamelessFirst(t)
    ensures !SameAnswers(Loaded(Printed(t)), t)
  {
    hide Printed, Shown, Built, Loaded;
    LoadedIsBuilt(t);
    var i :| 0 <= i < |t| && t[i].section == "" && t[0].section != "";
    ShownAreNamed(t, "");
    BuiltAreNamed(Shown(t, ""));
    GetIsMembership(t, "", t[i].name, t[i].value);
    assert Key("", t[i].name, t[i].value) == t[i];
    var u := Loaded(Printed(t));
    NamelessNotFound(u, t[i].name);
    assert Get(u, "", t[i].name) != Get(t, "", t[i].name);
  }

  /** Every key of every section, known or not, survives a save and a load exactly when
      the keys without a section come first. */
  lemma SettingsSurviveExactlyWhen(t: seq<Key>)
    requires GoodTable(t)
    ensures SameAnswers(Loaded(Printed(t)), t) <==> NamelessFirst(t)
  {
    hide Printed, Loaded, SameAnswers;
    if NamelessFirst(t) {
      LoadAfterSave(t);
    } else {
      SaveLosesNameless(t);
    }
  }

  lemma {:induction false} LinesHaveNoNul(t: seq<Key>)
    requires AllWellFormed(t)
    ensures NUL !in Lines(t)
  {
    if t != [] {
      assert WellFormed(t[0]);
      hide Fits, Clean;
      assert AllWellFormed(t[1..]);
      LinesHaveNoNul(t[1..]);
    }
  }

  /** A saved text is one C string, so the parser reads all of it. */
  lemma {:induction false} PrintedHasNoNul(t: seq<Key>)
    requires AllWellFormed(t)
    ensures NUL !in Printed(t)
    decreases |t|
  {
    if t != [] {
      hide Clean, Fits;
      var s := t[0].section;
      HeadIsKept(t);
      PartsWellFormed(t, s);
      LinesHaveNoNul(Keep(t, s));
      PrintedHasNoNul(Drop(t, s));
      assert WellFormed(t[0]);
    }
  }
}

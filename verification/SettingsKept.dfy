/** Which settings files survive being loaded, saved and loaded again. */
module SettingsKept {
  import opened Bytes
  import opened Settings
  import opened SettingsFile
  import opened SettingsRoundTrip
  import opened Ini

  // What the parser can find in a text.

  /** Trimming leaves characters of the string, without blanks around them. */
  lemma TrimIsPart(s: string)
    ensures forall c :: c in Trim(s) ==> c in s
    ensures Clean(Trim(s))
  {
    TrimStartIs(s);
    TrimEndIs(TrimStart(s));
  }

  lemma {:induction false} TrimStartIs(s: string)
    ensures TrimStart(s) == "" || !IsBlank(TrimStart(s)[0])
    ensures forall c :: c in TrimStart(s) ==> c in s
  {
    if s != "" && IsBlank(s[0]) {
      TrimStartIs(s[1..]);
    }
  }

  lemma {:induction false} TrimEndIs(s: string)
    ensures TrimEnd(s) == "" || (!IsTail(TrimEnd(s)[|TrimEnd(s)| - 1]) && TrimEnd(s)[0] == s[0])
    ensures forall c :: c in TrimEnd(s) ==> c in s
  {
    if s != "" && IsTail(s[|s| - 1]) {
      TrimEndIs(s[..|s| - 1]);
    }
  }

  /** Nothing that would end a line or the text. */
  predicate OneLine(s: string) {
    '\n' !in s && NUL !in s
  }

  predicate GoodSection(section: string) {
    Printable(section) && ']' !in section
  }

  predicate GoodName(name: string) {
    Printable(name) && '=' !in name && (name != "" ==> name[0] != '[' && name[0] != ';' && name[0] != '#')
  }

  lemma GoodKey(k: Key)
    requires Fits(k) && GoodSection(k.section) && GoodName(k.name) && Printable(k.value)
    ensures WellFormed(k)
  {}

  /** A line's section, name and value are such that a line can carry them. */
  lemma LineIsGood(s: string)
    requires OneLine(s)
    ensures LineOf(s).Section? ==> GoodSection(LineOf(s).name)
    ensures LineOf(s).Pair? ==> GoodName(LineOf(s).key) && Printable(LineOf(s).value)
  {
    hide Trim, IndexOf, Clean;
    var t := Trim(s);
    TrimIsPart(s);
    if t != "" && t[0] == '[' {
      TrimIsPart(t[1..IndexOf(t, ']')]);
    } else if t != "" && IndexOf(t, '=') < |t| {
      var eq := IndexOf(t, '=');
      TrimIsPart(t[..eq]);
      TrimIsPart(t[eq + 1..]);
      FirstOfTrimmed(t, eq);
    }
  }

  /** The name of a trimmed line starts where the line does. */
  lemma FirstOfTrimmed(t: string, eq: nat)
    requires Clean(t) && eq < |t|
    ensures Trim(t[..eq]) != "" ==> Trim(t[..eq])[0] == t[0]
  {
    var name := t[..eq];
    if name != "" {
      TrimEndIs(name);
      assert TrimStart(name) == name;
    }
  }

  predicate GoodCall(c: Call) {
    GoodSection(c.section) && GoodName(c.key) && Printable(c.value)
  }

  ghost predicate AllGood(calls: seq<Call>) {
    forall i :: 0 <= i < |calls| ==> GoodCall(calls[i])
  }

  /** No key without a section follows one with a section. */
  ghost predicate Ordered(calls: seq<Call>) {
    forall i, j :: 0 <= i < j < |calls| && calls[j].section == "" ==> calls[i].section == ""
  }

  ghost predicate Nameless(calls: seq<Call>) {
    forall i :: 0 <= i < |calls| ==> calls[i].section == ""
  }

  /** No line is `[]`. */
  ghost predicate NoEmptyHeader(text: string) {
    forall s :: s in LinesOf(text) ==> LineOf(s) != Section("")
  }

  lemma PartsOfText(text: string, end: nat)
    requires text != "" && end == IndexOf(text, '\n') && NUL !in text
    ensures OneLine(text[..end]) && end < |text| ==> NUL !in text[end + 1..]
    ensures OneLine(text[..end])
  {}

  lemma PartsOfHeaders(text: string, end: nat)
    requires text != "" && end == IndexOf(text, '\n') && NoEmptyHeader(text)
    ensures NoEmptyHeader(if end < |text| then text[end + 1..] else "") && LineOf(text[..end]) != Section("")
  {
    hide LineOf, LinesOf;
    FirstLine(text, end);
    assert text[..end] in LinesOf(text);
  }

  /** Every key that the parser finds is one that a line can carry. */
  lemma {:induction false} ParsedAreGood(text: string, section: string, line: nat, calls: seq<Call>)
    requires NUL !in text && GoodSection(section) && AllGood(calls)
    ensures AllGood(Parse(Quiet, text, section, line, calls).0)
    decreases |text|
  {
    hide LineOf, Parse, IndexOf, GoodSection, GoodName, Printable, Clean;
    if text == "" {
      ParseNothing(Quiet, text, section, line, calls);
    } else {
      var end := IndexOf(text, '\n');
      var next := if end < |text| then text[end + 1..] else "";
      ParseLine(Quiet, text, section, line, calls, end);
      PartsOfText(text, end);
      LineIsGood(text[..end]);
      match LineOf(text[..end])
      case Invalid =>
      case Ignored => ParsedAreGood(next, section, line + 1, calls);
      case Section(name) => ParsedAreGood(next, name, line + 1, calls);
      case Pair(key, value) =>
        assert GoodCall(Call(section, key, value, line + 1));
        ParsedAreGood(next, section, line + 1, calls + [Call(section, key, value, line + 1)]);
    }
  }

  /** Without an empty header, keys without a section are found first. */
  lemma {:induction false} ParsedAreOrdered(text: string, section: string, line: nat, calls: seq<Call>)
    requires NoEmptyHeader(text) && Ordered(calls) && (section == "" ==> Nameless(calls))
    ensures Ordered(Parse(Quiet, text, section, line, calls).0)
    decreases |text|
  {
    hide LineOf, LinesOf, Parse, IndexOf, NoEmptyHeader;
    if text == "" {
      ParseNothing(Quiet, text, section, line, calls);
    } else {
      var end := IndexOf(text, '\n');
      var next := if end < |text| then text[end + 1..] else "";
      ParseLine(Quiet, text, section, line, calls, end);
      PartsOfHeaders(text, end);
      match LineOf(text[..end])
      case Invalid =>
      case Ignored => ParsedAreOrdered(next, section, line + 1, calls);
      case Section(name) => ParsedAreOrdered(next, name, line + 1, calls);
      case Pair(key, value) => ParsedAreOrdered(next, section, line + 1, calls + [Call(section, key, value, line + 1)]);
    }
  }

  // What becomes of them in the table.

  lemma {:induction false} ForgetIs(calls: seq<Call>)
    ensures |Forget(calls)| == |calls| && forall i :: 0 <= i < |calls| ==> Forget(calls)[i] == KeyOf(calls[i])
  {
    if calls != [] {
      ForgetIs(calls[..|calls| - 1]);
    }
  }

  lemma SetOfFitting(t: seq<Key>, k: Key, x: Key)
    requires Fits(k) && x in Set(t, k.section, k.name, Some(k.value))
    ensures x == k || x in t
  {}

  lemma FirstAfterSet(t: seq<Key>, k: Key)
    requires Fits(k)
    ensures var u := Set(t, k.section, k.name, Some(k.value));
      u != [] && u[0].section == if t == [] then k.section else t[0].section
  {}

  /** Keys that fit are stored uncut, without duplicates, the first one first. */
  lemma {:induction false} BuiltFromFitting(keys: seq<Key>)
    requires AllFit(keys)
    ensures var u := Built(keys);
      && AllFit(u) && Distinct(u) && |u| <= KEYS_MAX
      && (forall x :: x in u ==> x in keys)
      && (keys != [] ==> u != [] && u[0].section == keys[0].section)
  {
    hide Set, Fits;
    if keys != [] {
      var init, k := keys[..|keys| - 1], keys[|keys| - 1];
      BuiltFromFitting(init);
      assert Fits(k);
      KeepsTable(Built(init), k);
      FirstAfterSet(Built(init), k);
      forall x | x in Built(keys) ensures x in keys {
        SetOfFitting(Built(init), k, x);
      }
    }
  }

  lemma KeepsTable(t: seq<Key>, k: Key)
    requires Fits(k) && AllFit(t) && Distinct(t) && |t| <= KEYS_MAX
    ensures var u := Set(t, k.section, k.name, Some(k.value)); AllFit(u) && Distinct(u) && |u| <= KEYS_MAX
  {
    SetKeepsTable(t, k.section, k.name, Some(k.value));
  }

  function CallsOf(text: string): seq<Call> {
    Parse(Quiet, text, "", 0, []).0
  }

  lemma LoadedIsGood(text: string)
    requires NUL !in text && forall i :: 0 <= i < |CallsOf(text)| ==> Fits(KeyOf(CallsOf(text)[i]))
    ensures GoodTable(Loaded(text))
  {
    hide Parse, Built, Fits, GoodSection, GoodName, Printable, WellFormed;
    var calls := CallsOf(text);
    var keys := Forget(calls);
    EmptyIsGood();
    ParsedAreGood(text, "", 0, []);
    ForgetIs(calls);
    BuiltFromFitting(keys);
    forall i | 0 <= i < |Built(keys)| ensures WellFormed(Built(keys)[i]) {
      assert Built(keys)[i] in keys;
      var j :| 0 <= j < |keys| && keys[j] == Built(keys)[i];
      assert GoodCall(calls[j]);
      GoodKey(keys[j]);
    }
  }

  lemma EmptyIsGood()
    ensures GoodSection("")
  {}

  lemma LoadedNamelessFirst(text: string)
    requires forall i :: 0 <= i < |CallsOf(text)| ==> Fits(KeyOf(CallsOf(text)[i]))
    requires NoEmptyHeader(text)
    ensures NamelessFirst(Loaded(text))
  {
    hide Parse, Built, Fits;
    var calls := CallsOf(text);
    var keys := Forget(calls);
    ParsedAreOrdered(text, "", 0, []);
    ForgetIs(calls);
    BuiltFromFitting(keys);
    forall i | 0 <= i < |Built(keys)| && Built(keys)[i].section == "" ensures Built(keys)[0].section == "" {
      assert Built(keys)[i] in keys;
      var j :| 0 <= j < |keys| && keys[j] == Built(keys)[i];
      assert calls[j].section == "" && (j > 0 ==> calls[0].section == "");
    }
  }

  /** Any text in which no key is too long for its buffer and no header is empty: after a
      load, a save and a load, every key that the first load found has its value. */
  lemma FilesSurvive(text: string)
    requires NUL !in text && NoEmptyHeader(text)
    requires forall i :: 0 <= i < |CallsOf(text)| ==> Fits(KeyOf(CallsOf(text)[i]))
    ensures GoodTable(Loaded(text)) && SameAnswers(Loaded(Printed(Loaded(text))), Loaded(text))
  {
    hide Loaded, Printed, GoodTable, NamelessFirst, SameAnswers, CallsOf;
    LoadedIsGood(text);
    LoadedNamelessFirst(text);
    SettingsSurviveExactlyWhen(Loaded(text));
  }

  /** A line gives back the value exactly when the value has no blanks around it. A value
      that is cut behind a blank has one at its end. */
  lemma ValueReadsBackExactlyWhen(name: string, value: string)
    requires GoodName(name) && OneLine(value)
    ensures LineOf(name + "=" + value) == Pair(name, value) <==> Clean(value)
  {
    hide LineOf, Clean;
    LineIsGood(name + "=" + value);
    if Clean(value) {
      KeyLine(name, value);
    }
  }
}

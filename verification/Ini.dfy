/** The settings file parser. It works in place: names and values become C strings inside
    the text, by NUL characters written over it. */
module Ini {
  const NUL: char := '\0'

  datatype Call = Call(section: string, key: string, value: string, line: nat)

  /** The handler's result, from the calls before and this one. */
  type Handler = (seq<Call>, Call) -> int

  predicate IsBlank(c: char) {
    c == ' ' || c == '\t'
  }

  function TrimStart(s: string): (t: string)
    ensures |t| <= |s| && t == s[|s| - |t|..]
  {
    if s != "" && IsBlank(s[0]) then TrimStart(s[1..]) else s
  }

  function TrimEnd(s: string): (t: string)
    ensures t <= s
  {
    if s != "" && (IsBlank(s[|s| - 1]) || s[|s| - 1] == '\r') then TrimEnd(s[..|s| - 1]) else s
  }

  function Trim(s: string): string {
    TrimEnd(TrimStart(s))
  }

  /** Where `c` is first, or the length. */
  function IndexOf(s: string, c: char): (i: nat)
    ensures i <= |s| && (forall k :: 0 <= k < i ==> s[k] != c) && (i < |s| ==> s[i] == c)
  {
    if s == "" || s[0] == c then 0 else 1 + IndexOf(s[1..], c)
  }

  datatype Line =
    | Ignored
    | Invalid
    | Section(name: string)
    | Pair(key: string, value: string)

  /** A trimmed line that starts with a bracket. */
  function SectionOf(s: string): Line
    requires s != "" && s[0] == '['
  {
    var close := IndexOf(s, ']');
    if close == |s| then Invalid else Section(Trim(s[1..close]))
  }

  /** Any other trimmed line that is not ignored. */
  function PairOf(s: string): Line {
    var eq := IndexOf(s, '=');
    if eq == |s| then Invalid else Pair(Trim(s[..eq]), Trim(s[eq + 1..]))
  }

  /** One line by itself. */
  function LineOf(text: string): Line {
    var s := Trim(text);
    if s == "" || s[0] == ';' || s[0] == '#' then Ignored
    else if s[0] == '[' then SectionOf(s)
    else PairOf(s)
  }

  /** The text line by line: the calls, and the result. */
  function Parse(h: Handler, text: string, section: string, line: nat, calls: seq<Call>): (seq<Call>, int)
    decreases |text|
  {
    if text == "" then (calls, 0)
    else
      var end := IndexOf(text, '\n');
      var next := if end < |text| then text[end + 1..] else "";
      match LineOf(text[..end])
      case Ignored => Parse(h, next, section, line + 1, calls)
      case Invalid => (calls, line + 1)
      case Section(name) => Parse(h, next, name, line + 1, calls)
      case Pair(key, value) =>
        var call := Call(section, key, value, line + 1);
        var rc := h(calls, call);
        if rc != 0 then (calls + [call], rc) else Parse(h, next, section, line + 1, calls + [call])
  }

  // What the parser means, in literal characters.

  lemma {:induction false} StartIs(s: string) returns (i: nat)
    ensures i <= |s| && TrimStart(s) == s[i..] && (forall k :: 0 <= k < i ==> s[k] in {' ', '\t'})
    ensures i < |s| ==> s[i] !in {' ', '\t'}
  {
    i := 0;
    if s != "" && IsBlank(s[0]) {
      i := StartIs(s[1..]);
      i := i + 1;
    }
  }

  lemma {:induction false} EndIs(s: string) returns (j: nat)
    ensures j <= |s| && TrimEnd(s) == s[..j] && (forall k :: j <= k < |s| ==> s[k] in {' ', '\t', '\r'})
    ensures j > 0 ==> s[j - 1] !in {' ', '\t', '\r'}
  {
    j := |s|;
    if s != "" && (IsBlank(s[|s| - 1]) || s[|s| - 1] == '\r') {
      j := EndIs(s[..|s| - 1]);
    }
  }

  /** Trimming takes spaces and tabs from the front, and carriage returns too from the end. */
  lemma TrimIs(s: string) returns (i: nat, j: nat)
    ensures i <= j <= |s| && Trim(s) == s[i..j]
    ensures forall k :: 0 <= k < i ==> s[k] in {' ', '\t'}
    ensures forall k :: j <= k < |s| ==> s[k] in {' ', '\t', '\r'}
    ensures i < j ==> s[i] !in {' ', '\t'} && s[j - 1] !in {' ', '\t', '\r'}
  {
    i := StartIs(s);
    var n := EndIs(s[i..]);
    j := i + n;
    hide TrimStart, TrimEnd;
    BoundsOf(s, i, n);
  }

  lemma BoundsOf(s: string, i: nat, n: nat)
    requires i + n <= |s| && forall k :: n <= k < |s[i..]| ==> s[i..][k] in {' ', '\t', '\r'}
    requires n > 0 ==> s[i..][n - 1] !in {' ', '\t', '\r'}
    ensures s[i..][..n] == s[i..i + n]
    ensures forall k :: i + n <= k < |s| ==> s[k] in {' ', '\t', '\r'}
    ensures n > 0 ==> s[i + n - 1] !in {' ', '\t', '\r'}
  {
    forall k | i + n <= k < |s| ensures s[k] in {' ', '\t', '\r'} {
      assert s[k] == s[i..][k - i];
    }
  }

  lemma IndexExists(s: string, c: char)
    ensures IndexOf(s, c) < |s| <==> c in s
  {}

  /** What a line is, by its first character and the one that it needs. */
  lemma LineIsExactly(text: string)
    ensures var s := Trim(text);
      && (LineOf(text) == Ignored <==> s == "" || s[0] == ';' || s[0] == '#')
      && (LineOf(text).Section? <==> s != "" && s[0] == '[' && ']' in s)
      && (LineOf(text).Pair? <==> s != "" && s[0] !in {'[', ';', '#'} && '=' in s)
  {
    IndexExists(Trim(text), ']');
    IndexExists(Trim(text), '=');
  }

  function LinesOf(text: string): seq<string>
    decreases |text|
  {
    if text == "" then []
    else
      var end := IndexOf(text, '\n');
      [text[..end]] + LinesOf(if end < |text| then text[end + 1..] else "")
  }

  /** The lines before `m` are all good, and line `m` is where the parser stopped: at an
      invalid line with its number, or at a key with the handler's result. */
  ghost predicate StoppedAt(h: Handler, lines: seq<string>, line: nat, m: nat, made: seq<Call>, rc: int) {
    && m < |lines|
    && match LineOf(lines[m])
       case Invalid => rc == line + m + 1
       case Pair(key, value) =>
         && made != [] && rc == h(made[..|made| - 1], made[|made| - 1])
         && made[|made| - 1] == Call(made[|made| - 1].section, key, value, line + m + 1)
       case _ => false
  }

  /** One line of the pure parser. */
  lemma ParseLine(h: Handler, text: string, section: string, line: nat, calls: seq<Call>, end: nat)
    requires text != "" && end == IndexOf(text, '\n')
    ensures var next := if end < |text| then text[end + 1..] else "";
      Parse(h, text, section, line, calls) ==
      match LineOf(text[..end])
      case Ignored => Parse(h, next, section, line + 1, calls)
      case Invalid => (calls, line + 1)
      case Section(name) => Parse(h, next, name, line + 1, calls)
      case Pair(key, value) =>
        var call := Call(section, key, value, line + 1);
        if h(calls, call) != 0 then (calls + [call], h(calls, call)) else Parse(h, next, section, line + 1, calls + [call])
  {
    hide LineOf;
  }

  lemma FirstLine(text: string, end: nat)
    requires text != "" && end == IndexOf(text, '\n')
    ensures LinesOf(text) == [text[..end]] + LinesOf(if end < |text| then text[end + 1..] else "")
  {}

  lemma StopShifts(h: Handler, first: string, lines: seq<string>, line: nat, m: nat, made: seq<Call>, rc: int)
    requires StoppedAt(h, lines, line + 1, m, made, rc)
    ensures StoppedAt(h, [first] + lines, line, m + 1, made, rc)
  {
    hide LineOf;
    assert ([first] + lines)[m + 1] == lines[m];
  }

  lemma StopsHere(h: Handler, first: string, lines: seq<string>, section: string, line: nat, calls: seq<Call>)
    ensures LineOf(first) == Invalid ==> StoppedAt(h, [first] + lines, line, 0, calls, line + 1)
    ensures LineOf(first).Pair? ==>
      var call := Call(section, LineOf(first).key, LineOf(first).value, line + 1);
      StoppedAt(h, [first] + lines, line, 0, calls + [call], h(calls, call))
  {
    hide LineOf;
    if LineOf(first).Pair? {
      var call := Call(section, LineOf(first).key, LineOf(first).value, line + 1);
      assert (calls + [call])[..|calls|] == calls;
    }
  }

  ghost predicate GoodUpTo(lines: seq<string>, m: nat) {
    m <= |lines| && forall k :: 0 <= k < m ==> LineOf(lines[k]) != Invalid
  }

  /** Result 0 after good lines only; or the lines before the stop are good. */
  ghost predicate Outcome(h: Handler, lines: seq<string>, line: nat, m: nat, made: seq<Call>, rc: int) {
    GoodUpTo(lines, m) && if rc == 0 then m == |lines| else StoppedAt(h, lines, line, m, made, rc)
  }

  lemma OutcomeOfNothing(h: Handler, lines: seq<string>, line: nat, made: seq<Call>)
    requires lines == []
    ensures Outcome(h, lines, line, 0, made, 0)
  {}

  lemma OutcomeHere(h: Handler, first: string, lines: seq<string>, section: string, line: nat, calls: seq<Call>)
    ensures LineOf(first) == Invalid ==> Outcome(h, [first] + lines, line, 0, calls, line + 1)
    ensures LineOf(first).Pair? ==>
      var call := Call(section, LineOf(first).key, LineOf(first).value, line + 1);
      h(calls, call) != 0 ==> Outcome(h, [first] + lines, line, 0, calls + [call], h(calls, call))
  {
    hide LineOf, StoppedAt;
    StopsHere(h, first, lines, section, line, calls);
  }

  lemma OutcomeLater(h: Handler, first: string, lines: seq<string>, line: nat, m: nat, made: seq<Call>, rc: int)
    requires LineOf(first) != Invalid && Outcome(h, lines, line + 1, m, made, rc)
    ensures Outcome(h, [first] + lines, line, m + 1, made, rc)
  {
    hide LineOf, StoppedAt;
    forall k | 0 <= k < m + 1 ensures LineOf(([first] + lines)[k]) != Invalid {
      assert ([first] + lines)[k] == if k == 0 then first else lines[k - 1];
    }
    if rc != 0 {
      StopShifts(h, first, lines, line, m, made, rc);
    }
  }

  /** The result is 0 only when every line is good; else the lines before the stop are. */
  lemma {:induction false} FirstProblem(h: Handler, text: string, section: string, line: nat, calls: seq<Call>) returns (m: nat)
    ensures var (made, rc) := Parse(h, text, section, line, calls); Outcome(h, LinesOf(text), line, m, made, rc)
    decreases |text|, 0
  {
    m := 0;
    if text == "" {
      OutcomeOfNothing(h, LinesOf(text), line, calls);
    } else {
      var end := IndexOf(text, '\n');
      var next := if end < |text| then text[end + 1..] else "";
      var first, lines := text[..end], LinesOf(next);
      ParseLine(h, text, section, line, calls, end);
      FirstLine(text, end);
      hide LineOf, Parse, LinesOf, IndexOf, Outcome;
      OutcomeHere(h, first, lines, section, line, calls);
      match LineOf(first)
      case Invalid =>
      case Ignored =>
        m := FirstProblemLater(h, first, next, section, line, calls);
      case Section(name) =>
        m := FirstProblemLater(h, first, next, name, line, calls);
      case Pair(key, value) =>
        var call := Call(section, key, value, line + 1);
        if h(calls, call) == 0 {
          m := FirstProblemLater(h, first, next, section, line, calls + [call]);
        }
    }
  }

  lemma {:induction false} FirstProblemLater(h: Handler, first: string, next: string, section: string, line: nat, calls: seq<Call>)
    returns (m: nat)
    requires LineOf(first) != Invalid
    ensures var (made, rc) := Parse(h, next, section, line + 1, calls); Outcome(h, [first] + LinesOf(next), line, m, made, rc)
    decreases |next|, 1
  {
    hide LineOf, Parse, LinesOf, Outcome;
    var k := FirstProblem(h, next, section, line + 1, calls);
    var (made, rc) := Parse(h, next, section, line + 1, calls);
    OutcomeLater(h, first, LinesOf(next), line, k, made, rc);
    m := k + 1;
  }

  /** Only the last call can have returned something else than 0. */
  lemma {:induction false} HandlersReturnedZero(h: Handler, text: string, section: string, line: nat, calls: seq<Call>, k: nat)
    requires var (made, rc) := Parse(h, text, section, line, calls); |calls| <= k < |made| && (rc == 0 || k < |made| - 1)
    ensures var made := Parse(h, text, section, line, calls).0; h(made[..k], made[k]) == 0
    decreases |text|
  {
    if text != "" {
      var end := IndexOf(text, '\n');
      var next := if end < |text| then text[end + 1..] else "";
      ParseLine(h, text, section, line, calls, end);
      hide LineOf, Parse, IndexOf;
      var first := LineOf(text[..end]);
      if first.Pair? {
        var call := Call(section, first.key, first.value, line + 1);
        if h(calls, call) == 0 {
          CallsGrow(h, next, section, line + 1, calls + [call]);
          if k > |calls| {
            HandlersReturnedZero(h, next, section, line + 1, calls + [call], k);
          } else {
            FirstNew(calls, call, Parse(h, text, section, line, calls).0);
          }
        }
      } else if first != Invalid {
        HandlersReturnedZero(h, next, if first.Section? then first.name else section, line + 1, calls, k);
      }
    }
  }

  lemma FirstNew(calls: seq<Call>, call: Call, made: seq<Call>)
    requires calls + [call] <= made
    ensures made[..|calls|] == calls && made[|calls|] == call
  {
    assert made[..|calls|] == made[..|calls| + 1][..|calls|] == calls;
    assert made[|calls|] == made[..|calls| + 1][|calls|];
  }

  lemma {:induction false} CallsGrow(h: Handler, text: string, section: string, line: nat, calls: seq<Call>)
    ensures calls <= Parse(h, text, section, line, calls).0
    decreases |text|
  {
    if text != "" {
      var end := IndexOf(text, '\n');
      var next := if end < |text| then text[end + 1..] else "";
      ParseLine(h, text, section, line, calls, end);
      hide LineOf, Parse, IndexOf;
      match LineOf(text[..end])
      case Invalid =>
      case Ignored => CallsGrow(h, next, section, line + 1, calls);
      case Section(name) => CallsGrow(h, next, name, line + 1, calls);
      case Pair(key, value) => CallsGrow(h, next, section, line + 1, calls + [Call(section, key, value, line + 1)]);
    }
  }

  // In place.

  /** The C string that starts at `p`. */
  function StringAt(buf: seq<char>, p: nat): string
    decreases |buf| - p
  {
    if p >= |buf| || buf[p] == NUL then "" else [buf[p]] + StringAt(buf, p + 1)
  }

  /** A string that ends at `e`. */
  predicate EndsAt(buf: seq<char>, p: nat, e: nat) {
    p <= e < |buf| && buf[e] == NUL && NUL !in buf[p..e]
  }

  /** A string at `p` whose NUL is before `end`, or at it. */
  ghost predicate StringIn(buf: seq<char>, p: nat, s: string, t: nat, end: nat) {
    t <= p && p + |s| <= end && EndsAt(buf, p, p + |s|) && buf[p..p + |s|] == s
  }

  lemma {:induction false} StringBetween(buf: seq<char>, p: nat, e: nat)
    requires EndsAt(buf, p, e)
    ensures StringAt(buf, p) == buf[p..e]
    decreases e - p
  {
    if p < e {
      assert buf[p] == buf[p..e][0] && buf[p + 1..e] == buf[p..e][1..];
      StringBetween(buf, p + 1, e);
    }
  }

  lemma DropFirst(buf: seq<char>, p: nat, end: nat)
    requires p <= end <= |buf|
    ensures (TrimStart(buf[p..end])
      == if p < end && (buf[p] == ' ' || buf[p] == '\t') then TrimStart(buf[p + 1..end]) else buf[p..end])
  {
    assert p < end ==> buf[p..end][1..] == buf[p + 1..end];
  }

  predicate IsTail(c: char) {
    IsBlank(c) || c == '\r'
  }

  lemma DropLast(buf: seq<char>, p: nat, last: nat)
    requires p <= last <= |buf|
    ensures (TrimEnd(buf[p..last])
      == if p < last && (buf[last - 1] == ' ' || buf[last - 1] == '\t' || buf[last - 1] == '\r') then TrimEnd(buf[p..last - 1]) else buf[p..last])
  {
    assert p < last ==> buf[p..last][..last - 1 - p] == buf[p..last - 1];
  }

  lemma NoNulWithin(buf: seq<char>, s: nat, p: nat, e: nat, end: nat)
    requires s <= p <= e <= end < |buf| && NUL !in buf[s..end]
    ensures EndsAt(buf[e := NUL], p, e)
  {
    forall k | p <= k < e ensures buf[k] != NUL {
      assert buf[k] == buf[s..end][k - s];
    }
    assert buf[e := NUL][p..e] == buf[p..e];
  }

  /** What is left of `buf[s..end]` without the blanks around it. */
  method TrimBounds(buf: array<char>, s: nat, end: nat) returns (p: nat, e: nat)
    requires s <= end <= buf.Length
    ensures s <= p <= e <= end && buf[p..e] == Trim(buf[s..end])
  {
    hide TrimStart, TrimEnd, IsBlank, IsTail;
    ghost var text := buf[..];
    p := s;
    while p < end && (buf[p] == ' ' || buf[p] == '\t')
      invariant s <= p <= end && TrimStart(text[p..end]) == TrimStart(text[s..end])
    {
      DropFirst(text, p, end);
      p := p + 1;
    }
    DropFirst(text, p, end);
    e := end;
    while e > p && (buf[e - 1] == ' ' || buf[e - 1] == '\t' || buf[e - 1] == '\r')
      invariant p <= e <= end && TrimEnd(text[p..e]) == TrimEnd(text[p..end])
    {
      DropLast(text, p, e);
      e := e - 1;
    }
    DropLast(text, p, e);
    assert text[p..e] == Trim(text[s..end]);
    hide Trim;
    assert buf[p..e] == text[p..e] && buf[s..end] == text[s..end];
  }

  /** Drops blanks around `buf[s..end]` and ends it with a NUL. */
  method TrimInPlace(buf: array<char>, s: nat, end: nat) returns (p: nat, ghost e: nat)
    requires s <= end < buf.Length && NUL !in buf[..][s..end]
    modifies buf
    ensures s <= e <= end && buf[..] == old(buf[..])[e := NUL]
    ensures StringIn(buf[..], p, Trim(old(buf[..])[s..end]), s, end) && e == p + |Trim(old(buf[..])[s..end])|
  {
    hide Trim, EndsAt;
    var last;
    p, last := TrimBounds(buf, s, end);
    assert buf[..][p..last] == buf[p..last] && buf[..][s..end] == buf[s..end];
    NoNulWithin(buf[..], s, p, last, end);
    e := last;
    buf[last] := NUL;
  }

  lemma {:induction false} IndexIs(s: string, c: char, i: nat)
    requires i <= |s| && (forall k :: 0 <= k < i ==> s[k] != c) && (i < |s| ==> s[i] == c)
    ensures IndexOf(s, c) == i
  {
    if i > 0 {
      IndexIs(s[1..], c, i - 1);
    }
  }

  /** The first `c`, or the end of the string. */
  method Seek(buf: array<char>, p: nat, c: char, ghost e: nat) returns (q: nat)
    requires EndsAt(buf[..], p, e)
    ensures q == p + IndexOf(buf[..][p..e], c) && p <= q <= e
    ensures forall k :: p <= k < q ==> buf[k] != c
    ensures q < e ==> buf[q] == c
  {
    q := p;
    assert forall k :: p <= k < e ==> buf[k] == buf[..][p..e][k - p];
    while buf[q] != NUL && buf[q] != c
      invariant p <= q <= e
      invariant forall k :: p <= k < q ==> buf[k] != c
      decreases e - q
    {
      q := q + 1;
    }
    IndexIs(buf[..][p..e], c, q - p);
  }

  /** A line in place: pointers to the strings in it. */
  datatype Cut = NoKey | Bad | SectionAt(p: nat) | PairAt(key: nat, value: nat)

  /** Everything outside `t..end` is as it was, and `end` itself is or became a NUL. */
  ghost predicate OnlyWithin(was: seq<char>, now: seq<char>, t: nat, end: nat) {
    && |now| == |was| && (forall k :: 0 <= k < |was| && !(t <= k <= end) ==> now[k] == was[k])
    && (end < |was| ==> now[end] == was[end] || now[end] == NUL)
  }

  /** The pointers point at what the line says. */
  ghost predicate CutIs(buf: seq<char>, cut: Cut, line: Line, t: nat, end: nat) {
    match line
    case Ignored => cut == NoKey
    case Invalid => cut == Bad
    case Section(name) => cut.SectionAt? && StringIn(buf, cut.p, name, t, end) && cut.p + |name| < end
    case Pair(key, value) => cut.PairAt? && StringIn(buf, cut.key, key, t, end) && StringIn(buf, cut.value, value, t, end)
  }

  lemma FirstOfString(buf: seq<char>, s: nat, line: string, t: nat, end: nat)
    requires StringIn(buf, s, line, t, end)
    ensures buf[s] == if line == "" then NUL else line[0]
    ensures line != "" ==> line[0] != NUL
    ensures EndsAt(buf, s, s + |line|) && buf[s..s + |line|] == line && t <= s && s + |line| <= end
  {
    assert line != "" ==> buf[s] == buf[s..s + |line|][0];
  }

  lemma CutWider(buf: seq<char>, cut: Cut, line: Line, s: nat, e: nat, t: nat, end: nat)
    requires CutIs(buf, cut, line, s, e) && t <= s && e <= end
    ensures CutIs(buf, cut, line, t, end)
  {
    hide EndsAt;
  }

  lemma OneWrite(was: seq<char>, t: nat, end: nat, e: nat)
    requires t <= e <= end < |was|
    ensures OnlyWithin(was, was[e := NUL], t, end)
  {}

  lemma WritesWithin(was: seq<char>, mid: seq<char>, now: seq<char>, t: nat, end: nat, s: nat, e: nat)
    requires OnlyWithin(was, mid, t, end) && OnlyWithin(mid, now, s, e) && t <= s && e <= end
    ensures OnlyWithin(was, now, t, end)
  {}

  method CutLine(buf: array<char>, t: nat, end: nat) returns (cut: Cut)
    requires t <= end < buf.Length && NUL !in buf[..][t..end]
    modifies buf
    ensures OnlyWithin(old(buf[..]), buf[..], t, end)
    ensures CutIs(buf[..], cut, LineOf(old(buf[..])[t..end]), t, end)
  {
    hide Trim, SectionOf, PairOf, EndsAt, StringIn, OnlyWithin;
    ghost var was, text := buf[..], buf[..][t..end];
    var s, e := TrimInPlace(buf, t, end);
    ghost var mid := buf[..];
    OneWrite(was, t, end, e);
    FirstOfString(mid, s, Trim(text), t, end);
    if buf[s] == NUL || buf[s] == ';' || buf[s] == '#' {
      cut := NoKey;
    } else if buf[s] == '[' {
      cut := CutSection(buf, s, e);
      CutWider(buf[..], cut, SectionOf(Trim(text)), s, e, t, end);
      WritesWithin(was, mid, buf[..], t, end, s, e);
    } else {
      cut := CutPair(buf, s, e);
      CutWider(buf[..], cut, PairOf(Trim(text)), s, e, t, end);
      WritesWithin(was, mid, buf[..], t, end, s, e);
    }
  }

  method CutSection(buf: array<char>, s: nat, ghost e: nat) returns (cut: Cut)
    requires s < e && EndsAt(buf[..], s, e) && buf[s] == '['
    modifies buf
    ensures OnlyWithin(old(buf[..]), buf[..], s, e)
    ensures CutIs(buf[..], cut, SectionOf(old(buf[..])[s..e]), s, e)
  {
    hide Trim, IndexOf, StringIn;
    ghost var text := buf[..];
    var close := Seek(buf, s, ']', e);
    if buf[close] != ']' {
      return Bad;
    }
    assert text[s..e][1..close - s] == text[s + 1..close];
    NulIsTheEnd(text, s, e, s + 1, close);
    var p, f := TrimInPlace(buf, s + 1, close);
    Wider(buf[..], p, Trim(text[s + 1..close]), s + 1, close, s, e);
    cut := SectionAt(p);
  }

  lemma NulIsTheEnd(buf: seq<char>, s: nat, e: nat, p: nat, q: nat)
    requires EndsAt(buf, s, e) && s <= p <= q <= e
    ensures NUL !in buf[p..q]
  {
    forall k | p <= k < q ensures buf[k] != NUL {
      assert buf[k] == buf[s..e][k - s];
    }
  }

  lemma NulExactlyAtEnd(buf: seq<char>, s: nat, e: nat, k: nat)
    requires EndsAt(buf, s, e) && s <= k <= e
    ensures buf[k] == NUL <==> k == e
  {
    assert k < e ==> buf[k] == buf[s..e][k - s];
  }

  lemma Wider(buf: seq<char>, p: nat, str: string, t: nat, end: nat, t2: nat, end2: nat)
    requires StringIn(buf, p, str, t, end) && t2 <= t && end <= end2
    ensures StringIn(buf, p, str, t2, end2)
  {}

  /** A NUL further on does not change a string. */
  lemma StillIn(buf: seq<char>, p: nat, str: string, t: nat, end: nat, g: nat)
    requires StringIn(buf, p, str, t, end) && end < g < |buf|
    ensures StringIn(buf[g := NUL], p, str, t, end)
  {
    assert buf[g := NUL][p..p + |str|] == buf[p..p + |str|];
  }

  /** Changes before a string do not change it. */
  lemma StillEnds(was: seq<char>, buf: seq<char>, s: nat, p: nat, e: nat)
    requires EndsAt(was, s, e) && s <= p <= e && |buf| == |was| && buf[p..] == was[p..]
    ensures EndsAt(buf, p, e) && buf[p..e] == was[p..e]
  {
    NulIsTheEnd(was, s, e, p, e);
    assert buf[p..e] == buf[p..][..e - p] == was[p..][..e - p] == was[p..e];
    assert buf[e] == buf[p..][e - p];
  }

  lemma LengthOfString(buf: seq<char>, p: nat, e: nat)
    requires EndsAt(buf, p, e)
    ensures IndexOf(buf[p..e], NUL) == e - p
  {
    IndexIs(buf[p..e], NUL, e - p);
  }

  /** `trim(value, value + strlen(value))`. */
  method CutValue(buf: array<char>, p: nat, ghost e: nat) returns (value: nat, ghost g: nat)
    requires EndsAt(buf[..], p, e)
    modifies buf
    ensures p <= g <= e && buf[..] == old(buf[..])[g := NUL]
    ensures StringIn(buf[..], value, Trim(old(buf[..])[p..e]), p, e)
  {
    hide Trim, IndexOf, StringIn;
    LengthOfString(buf[..], p, e);
    var end := Seek(buf, p, NUL, e);
    value, g := TrimInPlace(buf, p, end);
  }

  method CutPair(buf: array<char>, s: nat, ghost e: nat) returns (cut: Cut)
    requires s < e && EndsAt(buf[..], s, e)
    modifies buf
    ensures OnlyWithin(old(buf[..]), buf[..], s, e)
    ensures CutIs(buf[..], cut, PairOf(old(buf[..])[s..e]), s, e)
  {
    hide Trim, IndexOf, StringIn;
    ghost var text := buf[..];
    var eq := Seek(buf, s, '=', e);
    if buf[eq] != '=' {
      return Bad;
    }
    assert text[s..e][..eq - s] == text[s..eq] && text[s..e][eq + 1 - s..] == text[eq + 1..e];
    NulIsTheEnd(text, s, e, s, eq);
    buf[eq] := NUL;
    assert buf[..][s..eq] == text[s..eq];
    var key, f := TrimInPlace(buf, s, eq);
    ghost var first := buf[..];
    StillEnds(text, first, s, eq + 1, e);
    var value, g := CutValue(buf, eq + 1, e);
    StillIn(first, key, Trim(text[s..eq]), s, eq, g);
    Wider(buf[..], key, Trim(text[s..eq]), s, eq, s, e);
    Wider(buf[..], value, Trim(text[eq + 1..e]), eq + 1, e, s, e);
    cut := PairAt(key, value);
  }

  /** The section in use: the literal "", or a string in an earlier line. */
  datatype Pointer = Empty | At(p: nat)

  function Deref(buf: seq<char>, pointer: Pointer): string {
    if pointer.Empty? then "" else StringAt(buf, pointer.p)
  }

  /** The section's string lies before `t`, with its NUL. */
  ghost predicate SectionBefore(buf: seq<char>, pointer: Pointer, section: string, t: nat) {
    match pointer
    case Empty => section == ""
    case At(p) => p + |section| < t && EndsAt(buf, p, p + |section|) && buf[p..p + |section|] == section
  }

  lemma SectionReads(buf: seq<char>, pointer: Pointer, section: string, t: nat)
    requires SectionBefore(buf, pointer, section, t)
    ensures Deref(buf, pointer) == section
  {
    if pointer.At? {
      StringBetween(buf, pointer.p, pointer.p + |section|);
    }
  }

  lemma SectionStays(was: seq<char>, buf: seq<char>, pointer: Pointer, section: string, t: nat, next: nat)
    requires SectionBefore(was, pointer, section, t) && t <= next
    requires |buf| == |was| && forall k :: 0 <= k < |buf| && k < t ==> buf[k] == was[k]
    ensures SectionBefore(buf, pointer, section, next)
  {
    if pointer.At? {
      assert buf[pointer.p..pointer.p + |section|] == was[pointer.p..pointer.p + |section|];
    }
  }

  lemma PairReads(buf: seq<char>, cut: Cut, line: Line, t: nat, end: nat)
    requires CutIs(buf, cut, line, t, end) && line.Pair?
    ensures cut.PairAt? && StringAt(buf, cut.key) == line.key && StringAt(buf, cut.value) == line.value
  {
    StringBetween(buf, cut.key, cut.key + |line.key|);
    StringBetween(buf, cut.value, cut.value + |line.value|);
  }

  lemma CutKind(buf: seq<char>, cut: Cut, line: Line, t: nat, end: nat)
    requires CutIs(buf, cut, line, t, end)
    ensures (cut.NoKey? <==> line.Ignored?) && (cut.Bad? <==> line.Invalid?)
    ensures (cut.SectionAt? <==> line.Section?) && (cut.PairAt? <==> line.Pair?)
  {}

  /** Between two lines: what is unread is as in the source, and what was read has had its
      effect. */
  ghost predicate Between(buf: seq<char>, source: seq<char>, n: nat, t: nat, pointer: Pointer, section: string) {
    && t <= n < |source| && |buf| == |source| && source[n] == NUL && EndsAt(source, 0, n)
    && buf[t..] == source[t..] && SectionBefore(buf, pointer, section, t)
  }

  /** Finds the end of the line and cuts the line. */
  method ReadLine(buf: array<char>, t: nat, pointer: Pointer, ghost source: seq<char>, ghost n: nat, ghost section: string)
    returns (next: nat, cut: Cut, ghost end: nat)
    requires Between(buf[..], source, n, t, pointer, section) && t < n
    modifies buf
    ensures t <= end <= n && end == t + IndexOf(source[t..n], '\n')
    ensures t < next && next == if end < n then end + 1 else end
    ensures Between(buf[..], source, n, next, pointer, section)
    ensures CutIs(buf[..], cut, LineOf(source[t..end]), t, end)
  {
    hide LineOf, IndexOf, EndsAt, CutIs, SectionBefore, OnlyWithin;
    ghost var before := buf[..];
    StillEnds(source, before, 0, t, n);
    var q := Seek(buf, t, '\n', n);
    end := q;
    LineAhead(source, before, t, n, q);
    assert source[t..q] == source[t..n][..q - t];
    next := if buf[q] != NUL then q + 1 else q;
    cut := CutLine(buf, t, q);
    LineBehind(source, before, buf[..], t, q, n, next);
    SectionStays(before, buf[..], pointer, section, t, next);
  }

  lemma ParseLineAt(h: Handler, source: seq<char>, t: nat, n: nat, section: string, line: nat, calls: seq<Call>, end: nat)
    requires t < n <= |source| && t <= end <= n && end == t + IndexOf(source[t..n], '\n')
    ensures var next := if end < n then end + 1 else end;
      Parse(h, source[t..n], section, line, calls) ==
      match LineOf(source[t..end])
      case Ignored => Parse(h, source[next..n], section, line + 1, calls)
      case Invalid => (calls, line + 1)
      case Section(name) => Parse(h, source[next..n], name, line + 1, calls)
      case Pair(key, value) =>
        var call := Call(section, key, value, line + 1);
        if h(calls, call) != 0 then (calls + [call], h(calls, call)) else Parse(h, source[next..n], section, line + 1, calls + [call])
  {
    hide LineOf, Parse, IndexOf;
    ParseLine(h, source[t..n], section, line, calls, end - t);
    assert source[t..n][..end - t] == source[t..end];
    assert end < n ==> source[t..n][end - t + 1..] == source[end + 1..n];
    assert source[n..n] == "";
  }

  /** The part of `ini_parse` for one line. `stop` when it returns. */
  method OneLine(buf: array<char>, h: Handler, t: nat, pointer: Pointer, line: nat, calls: seq<Call>,
                 ghost source: seq<char>, ghost n: nat, ghost section: string)
    returns (stop: bool, rc: int, next: nat, p: Pointer, made: seq<Call>, ghost name: string)
    requires Between(buf[..], source, n, t, pointer, section) && t < n
    modifies buf
    ensures stop ==> Parse(h, source[t..n], section, line, calls) == (made, rc)
    ensures made == calls || (|made| == |calls| + 1 && made[..|calls|] == calls)
    ensures !stop ==> t < next && Between(buf[..], source, n, next, p, name)
    ensures !stop ==> Parse(h, source[t..n], section, line, calls) == Parse(h, source[next..n], name, line + 1, made)
  {
    hide LineOf, Parse, IndexOf, EndsAt, CutIs, SectionBefore, Deref, StringAt;
    var cut;
    ghost var end;
    next, cut, end := ReadLine(buf, t, pointer, source, n, section);
    ParseLineAt(h, source, t, n, section, line, calls, end);
    CutKind(buf[..], cut, LineOf(source[t..end]), t, end);
    stop, rc, p, made, name := false, 0, pointer, calls, section;
    match cut
    case NoKey =>
    case Bad =>
      stop, rc := true, line + 1;
    case SectionAt(at) =>
      p := At(at);
      name := LineOf(source[t..end]).name;
      SectionFromLine(buf[..], cut, LineOf(source[t..end]), t, end, next);
    case PairAt(key, value) =>
      SectionReads(buf[..], pointer, section, next);
      PairReads(buf[..], cut, LineOf(source[t..end]), t, end);
      var call := Call(Deref(buf[..], pointer), StringAt(buf[..], key), StringAt(buf[..], value), line + 1);
      rc := h(calls, call);
      made := calls + [call];
      stop := rc != 0;
  }

  /** The parser as the source runs it, over a text that ends at its first NUL. What it
      writes never reaches a line that is still to come, or the section in use. */
  method IniParse(buf: array<char>, h: Handler, ghost n: nat) returns (calls: seq<Call>, rc: int)
    requires EndsAt(buf[..], 0, n)
    modifies buf
    ensures (calls, rc) == Parse(h, old(buf[..])[..n], "", 0, [])
  {
    hide Parse, EndsAt, SectionBefore;
    ghost var source := buf[..];
    ghost var section := "";
    var pointer, line: nat, t := Empty, 0, 0;
    calls := [];
    NulHere(source, 0, n);
    NoSectionYet(source);
    assert source[0..n] == source[..n];
    while buf[t] != NUL
      invariant Between(buf[..], source, n, t, pointer, section)
      invariant Parse(h, source[t..n], section, line, calls) == Parse(h, source[..n], "", 0, [])
      decreases n - t
    {
      NotAtEnd(buf[..], source, n, t, pointer, section);
      var stop;
      stop, rc, t, pointer, calls, section := OneLine(buf, h, t, pointer, line, calls, source, n, section);
      if stop {
        return;
      }
      line := line + 1;
    }
    AllRead(source, buf[..], t, n);
    ParseNothing(h, source[t..n], section, line, calls);
    rc := 0;
  }

  lemma NotAtEnd(buf: seq<char>, source: seq<char>, n: nat, t: nat, pointer: Pointer, section: string)
    requires Between(buf, source, n, t, pointer, section) && buf[t] != NUL
    ensures t < n
  {
    assert source[t] == source[t..][0] == buf[t..][0] == buf[t];
  }

  lemma NulHere(buf: seq<char>, p: nat, e: nat)
    requires EndsAt(buf, p, e)
    ensures e < |buf| && buf[e] == NUL
  {}

  lemma NoSectionYet(buf: seq<char>)
    ensures SectionBefore(buf, Empty, "", 0)
  {}

  lemma ParseNothing(h: Handler, text: string, section: string, line: nat, calls: seq<Call>)
    requires text == ""
    ensures Parse(h, text, section, line, calls) == (calls, 0)
  {}

  lemma AllRead(source: seq<char>, buf: seq<char>, t: nat, n: nat)
    requires EndsAt(source, 0, n) && t <= n && |buf| == |source| && buf[t..] == source[t..] && buf[t] == NUL
    ensures t == n
  {
    assert source[t] == source[t..][0] == buf[t..][0] == buf[t];
    NulExactlyAtEnd(source, 0, n, t);
  }

  /** The line at `t` and the text after it, before the line is cut. */
  lemma LineAhead(source: seq<char>, buf: seq<char>, t: nat, n: nat, end: nat)
    requires t < n < |source| && |buf| == |source| && buf[t..] == source[t..]
    requires EndsAt(buf, t, n) && end == t + IndexOf(buf[t..n], '\n') && end <= n
    ensures buf[t..n] == source[t..n] && source[t..n][..end - t] == buf[t..end] && NUL !in buf[t..end]
    ensures buf[end] != NUL <==> end < n
    ensures (if end - t < |source[t..n]| then source[t..n][end - t + 1..] else "") == source[if end < n then end + 1 else end..n]
  {
    assert buf[t..n] == buf[t..][..n - t] == source[t..][..n - t] == source[t..n];
    assert source[t..n][..end - t] == source[t..end] == buf[t..n][..end - t] == buf[t..end];
    NulIsTheEnd(buf, t, n, t, end);
  }

  /** Cutting the line changes nothing that is still to be read. */
  lemma LineBehind(source: seq<char>, was: seq<char>, now: seq<char>, t: nat, end: nat, n: nat, next: nat)
    requires OnlyWithin(was, now, t, end) && t <= end <= n < |source| && |was| == |source|
    requires was[t..] == source[t..] && source[n] == NUL && next == if end < n then end + 1 else end
    ensures |now| == |source| && now[next..] == source[next..]
    ensures forall k :: 0 <= k < |now| && k < t ==> now[k] == was[k]
  {
    forall k | next <= k < |source| ensures now[k] == source[k] {
      assert was[k] == was[t..][k - t] == source[t..][k - t] == source[k];
    }
  }

  lemma SectionFromLine(buf: seq<char>, cut: Cut, line: Line, t: nat, end: nat, next: nat)
    requires CutIs(buf, cut, line, t, end) && line.Section? && end <= next
    ensures cut.SectionAt? && SectionBefore(buf, At(cut.p), line.name, next)
  {}
}

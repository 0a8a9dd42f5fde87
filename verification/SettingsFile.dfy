/** The settings table as a file: keys grouped by section, in the order in which the
    sections first appear, and read back by the parser. */
module SettingsFile {
  import opened Bytes
  import opened Settings

  const TEXT_MAX: nat := 4096

  function Keep(t: seq<Key>, section: string): (u: seq<Key>)
    ensures |u| <= |t|
  {
    if t == [] then [] else (if t[0].section == section then [t[0]] else []) + Keep(t[1..], section)
  }

  function Drop(t: seq<Key>, section: string): (u: seq<Key>)
    ensures |u| + |Keep(t, section)| == |t|
  {
    if t == [] then [] else (if t[0].section == section then [] else [t[0]]) + Drop(t[1..], section)
  }

  lemma HeadIsKept(t: seq<Key>)
    requires t != []
    ensures var s := t[0].section; |Keep(t, s)| > 0 && Keep(t, s)[0] == t[0] && |Drop(t, s)| < |t|
  {}

  /** The table with the keys of each section together. */
  function Regroup(t: seq<Key>): (u: seq<Key>)
    ensures |u| == |t|
    decreases |t|
  {
    if t == [] then []
    else
      HeadIsKept(t);
      Keep(t, t[0].section) + Regroup(Drop(t, t[0].section))
  }

  function Header(section: string): string {
    if section == "" then "" else "[" + section + "]\n"
  }

  function LineText(k: Key): string {
    k.name + "=" + k.value + "\n"
  }

  function Lines(t: seq<Key>): string {
    if t == [] then "" else LineText(t[0]) + Lines(t[1..])
  }

  function Printed(t: seq<Key>): string
    decreases |t|
  {
    if t == [] then ""
    else
      HeadIsKept(t);
      Header(t[0].section) + Lines(Keep(t, t[0].section)) + Printed(Drop(t, t[0].section))
  }

  // Grouping.

  lemma {:induction false} KeepMembers(t: seq<Key>, section: string)
    ensures forall k :: k in Keep(t, section) <==> k in t && k.section == section
    ensures forall k :: k in Drop(t, section) <==> k in t && k.section != section
  {
    if t != [] {
      KeepMembers(t[1..], section);
    }
  }

  lemma {:induction false} RegroupMembers(t: seq<Key>)
    ensures forall k :: k in Regroup(t) <==> k in t
    decreases |t|
  {
    if t != [] {
      HeadIsKept(t);
      KeepMembers(t, t[0].section);
      RegroupMembers(Drop(t, t[0].section));
    }
  }

  predicate Apart(a: Key, b: Key) {
    !IsKey(b, a.section, a.name)
  }

  lemma DistinctCons(t: seq<Key>)
    requires t != []
    ensures Distinct(t) <==> Distinct(t[1..]) && forall k :: k in t[1..] ==> Apart(t[0], k)
  {
    hide IsKey;
    if Distinct(t[1..]) && forall k :: k in t[1..] ==> Apart(t[0], k) {
      forall i, j | 0 <= i < j < |t| ensures !IsKey(t[j], t[i].section, t[i].name) {
        if i == 0 {
          assert t[j] in t[1..];
        } else {
          assert t[j] == t[1..][j - 1] && t[i] == t[1..][i - 1];
        }
      }
    }
  }

  lemma {:induction false} DistinctParts(t: seq<Key>, section: string)
    requires Distinct(t)
    ensures Distinct(Keep(t, section)) && Distinct(Drop(t, section))
  {
    if t != [] {
      DistinctCons(t);
      DistinctParts(t[1..], section);
      KeepMembers(t[1..], section);
      var a, b := Keep(t, section), Drop(t, section);
      if t[0].section == section {
        assert a[1..] == Keep(t[1..], section);
        DistinctCons(a);
      } else {
        assert b[1..] == Drop(t[1..], section);
        DistinctCons(b);
      }
    }
  }

  lemma {:induction false} DistinctJoin(a: seq<Key>, b: seq<Key>)
    requires Distinct(a) && Distinct(b) && forall x, y :: x in a && y in b ==> x.section != y.section
    ensures Distinct(a + b)
  {
    if a == [] {
      assert a + b == b;
    } else {
      DistinctCons(a);
      DistinctJoin(a[1..], b);
      assert (a + b)[1..] == a[1..] + b;
      DistinctCons(a + b);
    }
  }

  lemma {:induction false} RegroupIsDistinct(t: seq<Key>)
    requires Distinct(t)
    ensures Distinct(Regroup(t))
    decreases |t|
  {
    if t != [] {
      HeadIsKept(t);
      var s := t[0].section;
      DistinctParts(t, s);
      RegroupIsDistinct(Drop(t, s));
      KeepMembers(t, s);
      RegroupMembers(Drop(t, s));
      DistinctJoin(Keep(t, s), Regroup(Drop(t, s)));
    }
  }

  /** Tables with the same keys answer alike. */
  lemma SameKeysSameGet(t: seq<Key>, u: seq<Key>, section: string, name: string)
    requires Distinct(t) && Distinct(u) && forall k :: k in t <==> k in u
    ensures Get(t, section, name) == Get(u, section, name)
  {
    if Get(t, section, name).Some? {
      GetIsMembership(t, section, name, Get(t, section, name).value);
      GetIsMembership(u, section, name, Get(t, section, name).value);
    } else if Get(u, section, name).Some? {
      GetIsMembership(t, section, name, Get(u, section, name).value);
      GetIsMembership(u, section, name, Get(u, section, name).value);
    }
  }

  lemma Regrouped<T>(a: seq<T>, b: seq<T>, c: seq<T>)
    ensures a + b + c == a + (b + c)
  {}

  /** One key at the front. */
  lemma KeepCons(k: Key, t: seq<Key>, section: string)
    ensures Keep([k] + t, section) == (if k.section == section then [k] else []) + Keep(t, section)
    ensures Drop([k] + t, section) == (if k.section == section then [] else [k]) + Drop(t, section)
  {
    assert ([k] + t)[1..] == t;
  }

  lemma {:induction false} KeepJoin(a: seq<Key>, b: seq<Key>, section: string)
    ensures Keep(a + b, section) == Keep(a, section) + Keep(b, section)
    ensures Drop(a + b, section) == Drop(a, section) + Drop(b, section)
  {
    if a == [] {
      assert a + b == b;
    } else {
      hide Keep, Drop;
      var x, rest := [a[0]], a[1..];
      assert a == x + rest;
      KeepCons(a[0], rest, section);
      KeepCons(a[0], rest + b, section);
      KeepJoin(rest, b, section);
      Regrouped(x, rest, b);
      Regrouped(if a[0].section == section then x else [], Keep(rest, section), Keep(b, section));
      Regrouped(if a[0].section == section then [] else x, Drop(rest, section), Drop(b, section));
    }
  }

  lemma {:induction false} KeepAll(t: seq<Key>, section: string)
    requires forall k :: k in t ==> k.section == section
    ensures Keep(t, section) == t && Drop(t, section) == []
  {
    if t != [] {
      assert t[0] in t;
      KeepAll(t[1..], section);
    }
  }

  lemma {:induction false} DropAll(t: seq<Key>, section: string)
    requires forall k :: k in t ==> k.section != section
    ensures Keep(t, section) == [] && Drop(t, section) == t
  {
    if t != [] {
      assert t[0] in t;
      DropAll(t[1..], section);
    }
  }

  /** In a regrouped table, the first section is at the front. */
  lemma RegroupedParts(t: seq<Key>)
    requires t != []
    ensures var s, u := t[0].section, Regroup(t);
      u != [] && u[0].section == s && Keep(u, s) == Keep(t, s) && Drop(u, s) == Regroup(Drop(t, s))
  {
    HeadIsKept(t);
    var s := t[0].section;
    var a, b := Keep(t, s), Regroup(Drop(t, s));
    KeepMembers(t, s);
    RegroupMembers(Drop(t, s));
    KeepAll(a, s);
    DropAll(b, s);
    KeepJoin(a, b, s);
  }

  /** Grouping twice is grouping once, and a grouped table prints alike: the second save
      writes the same bytes. */
  lemma {:induction false} RegroupTwice(t: seq<Key>)
    ensures Regroup(Regroup(t)) == Regroup(t) && Printed(Regroup(t)) == Printed(t)
    decreases |t|
  {
    if t != [] {
      HeadIsKept(t);
      RegroupedParts(t);
      RegroupTwice(Drop(t, t[0].section));
    }
  }
}

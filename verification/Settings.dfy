/** The table of settings keys: fixed buffers, a linear search, and removal by a move. */
module Settings {
  import opened Bytes

  const KEYS_MAX: nat := 32
  const SECTION_SIZE: nat := 24
  const NAME_SIZE: nat := 32
  const VALUE_SIZE: nat := 96

  datatype Key = Key(section: string, name: string, value: string)

  /** What a string copy leaves in a buffer of `size`. */
  function Copied(s: string, size: nat): (t: string)
    requires size > 0
    ensures t <= s && |t| == Min(|s|, size - 1)
  {
    if |s| < size then s else s[..size - 1]
  }

  predicate IsKey(k: Key, section: string, name: string) {
    k.section == section && k.name == name
  }

  /** The first key with the name, or the length. */
  function Find(t: seq<Key>, section: string, name: string): (i: nat)
    ensures i <= |t| && (i < |t| ==> IsKey(t[i], section, name))
    ensures forall k :: 0 <= k < i ==> !IsKey(t[k], section, name)
  {
    if t == [] || IsKey(t[0], section, name) then 0 else Find(t[1..], section, name) + 1
  }

  function Get(t: seq<Key>, section: string, name: string): Option<string> {
    var i := Find(t, section, name);
    if i < |t| then Some(t[i].value) else None
  }

  /** No value removes the key. A new key in a full table is dropped. */
  function Set(t: seq<Key>, section: string, name: string, value: Option<string>): seq<Key> {
    var i := Find(t, section, name);
    match value
    case None => if i < |t| then t[..i] + t[i + 1..] else t
    case Some(v) =>
      if i < |t| then t[i := t[i].(value := Copied(v, VALUE_SIZE))]
      else if |t| == KEYS_MAX then t
      else t + [Key(Copied(section, SECTION_SIZE), Copied(name, NAME_SIZE), Copied(v, VALUE_SIZE))]
  }

  ghost predicate Distinct(t: seq<Key>) {
    forall i, j :: 0 <= i < j < |t| ==> !IsKey(t[j], t[i].section, t[i].name)
  }

  predicate Fits(k: Key) {
    |k.section| < SECTION_SIZE && |k.name| < NAME_SIZE && |k.value| < VALUE_SIZE
  }

  ghost predicate AllFit(t: seq<Key>) {
    forall i :: 0 <= i < |t| ==> Fits(t[i])
  }

  lemma {:induction false} FindIs(t: seq<Key>, section: string, name: string, i: nat)
    requires i <= |t| && (i < |t| ==> IsKey(t[i], section, name))
    requires forall k :: 0 <= k < i ==> !IsKey(t[k], section, name)
    ensures Find(t, section, name) == i
  {
    if i > 0 {
      FindIs(t[1..], section, name, i - 1);
    }
  }

  /** In a table without duplicates, membership is what `get` sees. */
  lemma GetIsMembership(t: seq<Key>, section: string, name: string, value: string)
    requires Distinct(t)
    ensures Get(t, section, name) == Some(value) <==> Key(section, name, value) in t
  {
    if Key(section, name, value) in t {
      var i :| 0 <= i < |t| && t[i] == Key(section, name, value);
      forall k | 0 <= k < i ensures !IsKey(t[k], section, name) {
        assert !IsKey(t[i], t[k].section, t[k].name);
      }
      FindIs(t, section, name, i);
    }
  }

  /** A key that was set is found again exactly when its names fit their buffers. A
      longer name is cut, and then never found. */
  lemma GetAfterSet(t: seq<Key>, section: string, name: string, v: string)
    requires AllFit(t) && (Find(t, section, name) < |t| || |t| < KEYS_MAX)
    ensures (Get(Set(t, section, name, Some(v)), section, name) == Some(Copied(v, VALUE_SIZE))
      <==> |section| < SECTION_SIZE && |name| < NAME_SIZE)
  {
    var i := Find(t, section, name);
    var u := Set(t, section, name, Some(v));
    if i < |t| {
      assert Fits(t[i]);
      FindIs(u, section, name, i);
    } else if |section| < SECTION_SIZE && |name| < NAME_SIZE {
      FindIs(u, section, name, |t|);
    } else {
      assert !IsKey(u[|t|], section, name);
      FindIs(u, section, name, |u|);
    }
  }

  /** A new key is stored, its names cut to their buffers. */
  predicate Adds(t: seq<Key>, section: string, name: string, value: Option<string>) {
    value.Some? && Find(t, section, name) == |t| && |t| != KEYS_MAX
  }

  /** The key that such a name becomes. */
  predicate IsCut(section: string, name: string, s: string, n: string) {
    s == Copied(section, SECTION_SIZE) && n == Copied(name, NAME_SIZE)
  }

  predicate Has(t: seq<Key>, section: string, name: string) {
    Find(t, section, name) < |t|
  }

  /** The table stays within its buffers, and without duplicates exactly when no new key
      is cut to the names of one that is there. Names that fit are not cut. */
  lemma SetKeepsTable(t: seq<Key>, section: string, name: string, value: Option<string>)
    requires AllFit(t) && Distinct(t) && |t| <= KEYS_MAX
    ensures var u := Set(t, section, name, value);
      && AllFit(u) && |u| <= KEYS_MAX
      && (Distinct(u) <==> !(Adds(t, section, name, value)
                             && Has(t, Copied(section, SECTION_SIZE), Copied(name, NAME_SIZE))))
    ensures |section| < SECTION_SIZE && |name| < NAME_SIZE ==> Distinct(Set(t, section, name, value))
  {
    var u := Set(t, section, name, value);
    var i := Find(t, section, name);
    if value.None? {
      forall k | 0 <= k < |u| ensures u[k] == t[if i == |t| || k < i then k else k + 1] {}
    } else if Adds(t, section, name, value) {
      var j := Find(t, u[|t|].section, u[|t|].name);
      if j < |t| {
        assert IsKey(u[|t|], u[j].section, u[j].name);
      } else {
        forall k | 0 <= k < |t| ensures !IsKey(u[|t|], u[k].section, u[k].name) {
          assert !IsKey(t[k], u[|t|].section, u[|t|].name);
        }
      }
    }
  }

  /** Every other key answers as before, except that a new key with names that do not fit
      also answers for the names it is cut to, if no key had them. */
  lemma OthersAfterSet(t: seq<Key>, section: string, name: string, value: Option<string>, s: string, n: string)
    requires Distinct(t) && (s, n) != (section, name)
    ensures Get(Set(t, section, name, value), s, n) == Get(t, s, n)
      <==> !(Adds(t, section, name, value) && IsCut(section, name, s, n) && !Has(t, s, n))
  {
    var i, j := Find(t, section, name), Find(t, s, n);
    var u := Set(t, section, name, value);
    if value.None? && i < |t| {
      forall k | 0 <= k < |u| ensures u[k] == t[if k < i then k else k + 1] {}
      FindIs(u, s, n, if j <= i then j else j - 1);
    } else if i < |t| || j < |t| || u == t {
      FindIs(u, s, n, j);
    } else {
      FindIs(u, s, n, if IsCut(section, name, s, n) then |t| else |u|);
    }
  }

  lemma GetAfterRemove(t: seq<Key>, section: string, name: string)
    requires Distinct(t)
    ensures Get(Set(t, section, name, None), section, name) == None && Distinct(Set(t, section, name, None))
  {
    var i := Find(t, section, name);
    var u := Set(t, section, name, None);
    forall k | 0 <= k < |u| ensures u[k] == t[if k < i then k else k + 1] {}
    FindIs(u, section, name, |u|);
  }

  // In place.

  class Table {
    const keys: array<Key>
    var keyCount: nat

    constructor ()
      ensures Valid() && fresh(keys) && Contents() == []
    {
      keys := new Key[KEYS_MAX](_ => Key("", "", ""));
      keyCount := 0;
    }

    ghost predicate Valid()
      reads this
    {
      keys.Length == KEYS_MAX && keyCount <= KEYS_MAX
    }

    ghost function Contents(): seq<Key>
      requires Valid()
      reads this, keys
    {
      keys[..keyCount]
    }

    method FindKey(section: string, name: string) returns (i: nat)
      requires Valid()
      ensures i == Find(Contents(), section, name)
    {
      i := 0;
      while i < keyCount
        invariant i <= keyCount
        invariant forall k :: 0 <= k < i ==> !IsKey(keys[k], section, name)
      {
        if keys[i].section == section && keys[i].name == name {
          break;
        }
        i := i + 1;
      }
      FindIs(Contents(), section, name, i);
    }

    /** `memmove` of the keys after the `i`-th one. */
    method RemoveAt(i: nat)
      requires Valid() && i < keyCount
      modifies this, keys
      ensures Valid() && Contents() == old(Contents())[..i] + old(Contents())[i + 1..]
    {
      ghost var was := Contents();
      keyCount := keyCount - 1;
      var k := i;
      while k < keyCount
        invariant i <= k <= keyCount == |was| - 1 && Valid()
        invariant forall j :: 0 <= j < i ==> keys[j] == was[j]
        invariant forall j :: i <= j < k ==> keys[j] == was[j + 1]
        invariant forall j :: k < j <= keyCount ==> keys[j] == was[j]
      {
        keys[k] := keys[k + 1];
        k := k + 1;
      }
    }

    method SetKey(section: string, name: string, value: Option<string>)
      requires Valid()
      modifies this, keys
      ensures Valid() && Contents() == Set(old(Contents()), section, name, value)
    {
      hide Find, IsKey, Copied;
      var i := FindKey(section, name);
      if value.None? {
        if i < keyCount {
          RemoveAt(i);
        }
        return;
      }
      if i == keyCount {
        if keyCount == KEYS_MAX {
          return;
        }
        keys[i] := Key(Copied(section, SECTION_SIZE), Copied(name, NAME_SIZE), "");
        keyCount := keyCount + 1;
      }
      keys[i] := keys[i].(value := Copied(value.value, VALUE_SIZE));
    }
  }
}

/**
 * The Hotkey record of AppLogic/Models/Hotkey.cs, its name-based identity,
 * and the name-based Union that merges roaming and local hotkeys
 * (AppLogic/Presenter/HotkeyHandlerHost.cs).
 */
module Hotkeys {
  import opened Wrappers
  import opened MachineInts

  /** `null` members are None. */
  datatype Hotkey = Hotkey(
    name: string,
    menuItem: Option<string>,
    mods: Option<u32>,
    vkey: Option<u32>,
    isScript: bool,
    addSeparator: bool,
    data: Option<string>)

  /** `new Hotkey()`: the property initialisers and defaults. */
  const Default := Hotkey("", None, None, None, false, false, None)

  /** HasHotkey: both a virtual key and modifiers are given, so the default hotkey has none. */
  function HasHotkey(h: Hotkey): (r: bool)
    ensures r <==> h.vkey.Some? && h.mods.Some?
    ensures r ==> h != Default
  {
    h.vkey.Some? && h.mods.Some?
  }

  /** Equals: two hotkeys are the same when their names are, which is exactly when Union drops the second after the first. */
  function SameHotkey(a: Hotkey, b: Hotkey): (r: bool)
    ensures r <==> UnionInto([a], [b]) == [a]
    ensures a == b ==> r
  {
    assert Names([a]) == {a.name} by { assert [a][..0] == []; }
    assert UnionInto([a], [b]) == (if b.name in Names([a]) then [a] else [a] + [b]) by { assert [b][1..] == []; }
    a.name == b.name
  }

  /** GetHashCode: the string hash of the name, so every hotkey equal to `h` hashes alike; the hash of strings is a parameter. */
  function HashCode(h: Hotkey, stringHash: string -> int): (r: int)
    ensures forall g :: SameHotkey(g, h) ==> stringHash(g.name) == r
  {
    stringHash(h.name)
  }

  lemma DefaultHotkey()
    ensures Default.name == "" && !Default.isScript && !Default.addSeparator
    ensures Default.menuItem.None? && Default.mods.None? && Default.vkey.None? && Default.data.None?
    ensures !HasHotkey(Default)
  {
  }

  /** HasHotkey needs both halves: a key without modifiers, or the reverse, is not a hotkey. */
  lemma HasHotkeyNeedsBoth(h: Hotkey, m: u32, k: u32)
    ensures HasHotkey(h.(mods := Some(m), vkey := Some(k)))
    ensures !HasHotkey(h.(mods := None)) && !HasHotkey(h.(vkey := None))
  {
  }

  /** Equals is an equivalence that ignores every field but the name, and the hash agrees with it. */
  lemma SameHotkeyIsEquivalence(a: Hotkey, b: Hotkey, c: Hotkey, stringHash: string -> int)
    ensures SameHotkey(a, a)
    ensures SameHotkey(a, b) ==> SameHotkey(b, a)
    ensures SameHotkey(a, b) && SameHotkey(b, c) ==> SameHotkey(a, c)
    ensures SameHotkey(a, b) ==> HashCode(a, stringHash) == HashCode(b, stringHash)
    ensures SameHotkey(a, a.(menuItem := b.menuItem, mods := b.mods, vkey := b.vkey,
                             isScript := b.isScript, addSeparator := b.addSeparator, data := b.data))
  {
  }

  function Names(hs: seq<Hotkey>): (r: set<string>)
    ensures forall k :: 0 <= k < |hs| ==> hs[k].name in r
    decreases |hs|
  {
    if |hs| == 0 then {} else Names(hs[..|hs| - 1]) + {hs[|hs| - 1].name}
  }

  /** The first hotkey with the given name. */
  function Find(hs: seq<Hotkey>, name: string): (r: Option<Hotkey>)
    ensures r.Some? <==> name in Names(hs)
    ensures r.Some? ==> r.value.name == name && r.value in hs
    decreases |hs|
  {
    if |hs| == 0 then None
    else if hs[0].name == name then Some(hs[0])
    else
      assert Names(hs) == {hs[0].name} + Names(hs[1..]) by { NamesCons(hs); }
      Find(hs[1..], name)
  }

  lemma {:induction false} NamesCons(hs: seq<Hotkey>)
    requires |hs| > 0
    ensures Names(hs) == {hs[0].name} + Names(hs[1..])
    decreases |hs|
  {
    if |hs| > 1 {
      NamesCons(hs[..|hs| - 1]);
      assert hs[..|hs| - 1][1..] == hs[1..][..|hs[1..]| - 1];
      assert hs[..|hs| - 1][0] == hs[0];
    } else {
      assert hs[1..] == [];
    }
  }

  /** Enumerable.Union under name equality: `into` followed by the items of `more` whose name is not in it yet. */
  function UnionInto(into: seq<Hotkey>, more: seq<Hotkey>): (r: seq<Hotkey>)
    ensures |into| <= |r| <= |into| + |more|
    ensures r[..|into|] == into
    ensures forall x :: x in r ==> x in into || x in more
    decreases |more|
  {
    if |more| == 0 then into
    else UnionInto(if more[0].name in Names(into) then into else into + [more[0]], more[1..])
  }

  predicate DistinctNames(hs: seq<Hotkey>)
  {
    forall i, j :: 0 <= i < j < |hs| ==> hs[i].name != hs[j].name
  }

  /** `roaming.Union(local)`. */
  function Union(roaming: seq<Hotkey>, local: seq<Hotkey>): (r: seq<Hotkey>)
    ensures |r| <= |roaming| + |local|
    ensures forall x :: x in r ==> x in roaming || x in local
  {
    UnionInto([], roaming + local)
  }

  lemma NamesAppendOne(hs: seq<Hotkey>, h: Hotkey)
    ensures Names(hs + [h]) == Names(hs) + {h.name}
  {
    assert (hs + [h])[..|hs|] == hs;
  }

  /**
   * Adding `more` keeps distinct names, and a name then finds its entry in
   * `into` first, else its first entry in `more`.
   */
  lemma {:induction false} UnionIntoFinds(into: seq<Hotkey>, more: seq<Hotkey>, name: string)
    requires DistinctNames(into)
    ensures DistinctNames(UnionInto(into, more))
    ensures Find(UnionInto(into, more), name) == if name in Names(into) then Find(into, name) else Find(more, name)
    decreases |more|
  {
    if |more| > 0 {
      var h := more[0];
      var next := if h.name in Names(into) then into else into + [h];
      if h.name !in Names(into) {
        assert DistinctNames(next) by {
          forall i | 0 <= i < |into|
            ensures into[i].name != h.name
          {
          }
        }
        FindAppend(into, [h], name);
        assert [h][1..] == [];
        NamesAppendOne(into, h);
      }
      UnionIntoFinds(next, more[1..], name);
      NamesCons(more);
    }
  }

  lemma {:induction false} NamesAppend(a: seq<Hotkey>, b: seq<Hotkey>)
    ensures Names(a + b) == Names(a) + Names(b)
    decreases |b|
  {
    if |b| == 0 {
      assert a + b == a;
    } else {
      var ab := a + b;
      assert ab[..|ab| - 1] == a + b[..|b| - 1];
      assert ab[|ab| - 1] == b[|b| - 1];
      NamesAppend(a, b[..|b| - 1]);
    }
  }

  lemma FindAppend(a: seq<Hotkey>, b: seq<Hotkey>, name: string)
    ensures Find(a + b, name) == if name in Names(a) then Find(a, name) else Find(b, name)
    decreases |a|
  {
    if |a| == 0 {
      assert a + b == b;
    } else {
      NamesCons(a);
      assert (a + b)[1..] == a[1..] + b;
      FindAppend(a[1..], b, name);
    }
  }

  /**
   * Roaming hotkeys take precedence: the merged list has one entry per name,
   * and a name present in both lists keeps the roaming entry.
   */
  lemma UnionKeepsRoaming(roaming: seq<Hotkey>, local: seq<Hotkey>, name: string)
    ensures DistinctNames(Union(roaming, local))
    ensures Find(Union(roaming, local), name) == if name in Names(roaming) then Find(roaming, name) else Find(local, name)
  {
    UnionIntoFinds([], roaming + local, name);
    FindAppend(roaming, local, name);
  }

  /** Every name of either list is in the merged list, and no other. */
  lemma UnionNames(roaming: seq<Hotkey>, local: seq<Hotkey>)
    ensures Names(Union(roaming, local)) == Names(roaming) + Names(local)
  {
    var u := Union(roaming, local);
    NamesAppend(roaming, local);
    forall n
      ensures n in Names(u) <==> n in Names(roaming + local)
    {
      UnionIntoFinds([], roaming + local, n);
    }
  }
}

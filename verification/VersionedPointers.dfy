/**
 The versioned pointer and the concurrent map over it.  A base owns a value and counts the proxies on it; whoever
 takes the last proxy off deletes the base.  Memory is explicit, so that deleting twice or too early can be told:
 bases and proxies have addresses that are never used again, and `freed` lists the values deleted.

 Each operation on a proxy is one step.  The class runs the operations on its fields; the functions on `Memory` say
 what they make of it, and the invariants range over all runs of them.
 */
module VersionedPointers {
  import opened Wrappers

  type Address = nat
  type Value = nat
  type MapKey = string

  /** A `MultiVersionPtr`: its value unless deleted, and the number of proxies on it. */
  datatype Base = Base(ptr: Option<Value>, usage: nat)

  datatype Memory = Memory(
    bases: map<Address, Base>,
    proxies: map<Address, Option<Address>>,  // what each live proxy is on
    nodes: map<MapKey, Address>,  // the proxy in each node of the map
    freed: seq<Address>,  // the bases whose value has been deleted
    nextBase: Address,
    nextProxy: Address
  )

  const EMPTY := Memory(map[], map[], map[], [], 0, 0)

  // ---------------------------------------------------------------- counts

  function IncrCount(m: Memory, b: Address): Memory
    requires b in m.bases
  {
    m.(bases := m.bases[b := m.bases[b].(usage := m.bases[b].usage + 1)])
  }

  /** Deletes the value with the last proxy. */
  function DecrCount(m: Memory, b: Address): Memory
    requires b in m.bases && m.bases[b].usage > 0
  {
    if m.bases[b].usage == 1 then m.(bases := m.bases[b := Base(None, 0)], freed := m.freed + [b])
    else m.(bases := m.bases[b := m.bases[b].(usage := m.bases[b].usage - 1)])
  }

  /** The destructor deletes the value as well, if there is one still. */
  function DeleteBase(m: Memory, b: Address): Memory
    requires b in m.bases
  {
    m.(bases := m.bases - {b}, freed := if m.bases[b].ptr.Some? then m.freed + [b] else m.freed)
  }

  /** Takes a proxy off a base. */
  function Release(m: Memory, b: Address): Memory
    requires b in m.bases && m.bases[b].usage > 0
  {
    var m1 := DecrCount(m, b);
    if m1.bases[b].usage == 0 then DeleteBase(m1, b) else m1
  }

  // ---------------------------------------------------------------- proxies

  predicate Live(m: Memory, p: Address) {
    p in m.proxies && (m.proxies[p].Some? ==> m.proxies[p].value in m.bases && m.bases[m.proxies[p].value].usage > 0)
  }

  /** Puts a proxy on another base, or on none: first counts the new one up, then the old one down. */
  function SetBase(m: Memory, p: Address, parent: Option<Address>): Memory
    requires Live(m, p) && (parent.Some? ==> parent.value in m.bases)
  {
    var prev := m.proxies[p];
    if prev == parent then m
    else
      var m1 := m.(proxies := m.proxies[p := parent]);
      var m2 := if parent.Some? then IncrCount(m1, parent.value) else m1;
      if prev.Some? then Release(m2, prev.value) else m2
  }

  function NewProxy(m: Memory): Memory {
    m.(proxies := m.proxies[m.nextProxy := None], nextProxy := m.nextProxy + 1)
  }

  /** A proxy made from another, by copying or moving: moving leaves the other where it is. */
  function CopyProxy(m: Memory, other: Address): Memory
    requires other in m.proxies && other != m.nextProxy
        && (m.proxies[other].Some? ==> m.proxies[other].value in m.bases)
  {
    SetBase(NewProxy(m), m.nextProxy, m.proxies[other])
  }

  function DestroyProxy(m: Memory, p: Address): Memory
    requires Live(m, p)
  {
    var m1 := m.(proxies := m.proxies - {p});
    if m.proxies[p].Some? then Release(m1, m.proxies[p].value) else m1
  }

  function Assign(m: Memory, p: Address, other: Address): Memory
    requires Live(m, p) && Live(m, other)
  {
    SetBase(m, p, m.proxies[other])
  }

  /** A new base for a value, with this proxy the first on it. */
  function Reset(m: Memory, p: Address, value: Value): Memory
    requires Live(m, p) && m.nextBase !in m.bases
  {
    SetBase(m.(bases := m.bases[m.nextBase := Base(Some(value), 0)], nextBase := m.nextBase + 1), p, Some(m.nextBase))
  }

  // ---------------------------------------------------------------- what every step keeps

  /** The proxies on a base. */
  function On(proxies: map<Address, Option<Address>>, b: Address): set<Address> {
    set p <- proxies | proxies[p] == Some(b)
  }

  /** The count is that of the proxies; only a base just made may have none. */
  ghost predicate Counted(m: Memory, newborn: Option<Address>) {
    forall b <- m.bases ::
      m.bases[b].ptr.Some? && m.bases[b].usage == |On(m.proxies, b)| && (m.bases[b].usage > 0 || newborn == Some(b))
  }

  /** Proxies are on live bases. */
  ghost predicate Pointed(m: Memory) {
    forall p <- m.proxies :: m.proxies[p].Some? ==> m.proxies[p].value in m.bases
  }

  /** Every base made is live or has had its value deleted, once. */
  ghost predicate FreedOnce(m: Memory) {
    && (forall b: Address :: b in m.bases || b in m.freed <==> b < m.nextBase)
    && (forall b <- m.freed :: b !in m.bases)
    && (forall i, j | 0 <= i < j < |m.freed| :: m.freed[i] != m.freed[j])
  }

  /** Each node has a proxy of its own, on a base. */
  ghost predicate NodesOwn(m: Memory) {
    && (forall p <- m.proxies :: p < m.nextProxy)
    && (forall k <- m.nodes :: m.nodes[k] in m.proxies && m.proxies[m.nodes[k]].Some?)
    && (forall k <- m.nodes, l <- m.nodes :: m.nodes[k] == m.nodes[l] ==> k == l)
  }

  ghost predicate Sound(m: Memory) {
    Counted(m, None) && Pointed(m) && FreedOnce(m)
  }

  ghost predicate Inv(m: Memory) {
    Sound(m) && NodesOwn(m)
  }

  lemma OnAfter(proxies: map<Address, Option<Address>>, p: Address, q: Option<Address>, b: Address)
    ensures On(proxies[p := q], b) == if q == Some(b) then On(proxies, b) + {p} else On(proxies, b) - {p}
    ensures On(proxies - {p}, b) == On(proxies, b) - {p}
    ensures |On(proxies[p := q], b)| ==
            |On(proxies, b)| + (if q == Some(b) then 1 else 0) - if p in proxies && proxies[p] == Some(b) then 1 else 0
    ensures |On(proxies - {p}, b)| == |On(proxies, b)| - if p in proxies && proxies[p] == Some(b) then 1 else 0
  {
    var before, after := On(proxies, b), On(proxies[p := q], b);
    assert after == if q == Some(b) then before + {p} else before - {p};
    assert On(proxies - {p}, b) == before - {p};
    assert p in before <==> p in proxies && proxies[p] == Some(b);
  }

  /** One base counts a proxy that is on it no more. */
  ghost predicate OverCounted(m: Memory, over: Address) {
    && over in m.bases
    && forall b <- m.bases ::
         && m.bases[b].ptr.Some?
         && m.bases[b].usage == |On(m.proxies, b)| + (if b == over then 1 else 0)
         && m.bases[b].usage > 0
  }

  /** Only the base that nothing is on any more, if any, is deleted, with its value; the others keep theirs. */
  ghost predicate OnlyUnused(m: Memory, m': Memory) {
    && (forall b <- m'.bases :: b in m.bases && m'.bases[b].ptr == m.bases[b].ptr)
    && (forall b <- m.bases :: b in m'.bases || On(m'.proxies, b) == {})
    && m.freed <= m'.freed
    && (forall b <- m'.freed :: b in m.freed || b in m.bases)
  }

  /** The value is deleted once with its base, or the base counts one less. */
  lemma ReleaseEffect(m: Memory, b: Address)
    requires b in m.bases && m.bases[b].usage > 0 && m.bases[b].ptr.Some?
    ensures Release(m, b) ==
            if m.bases[b].usage == 1 then m.(bases := m.bases - {b}, freed := m.freed + [b])
            else m.(bases := m.bases[b := Base(m.bases[b].ptr, m.bases[b].usage - 1)])
  {
    var m1 := DecrCount(m, b);
    if m.bases[b].usage == 1 {
      assert m1.bases - {b} == m.bases - {b};
    }
  }

  lemma ReleaseCounted(m: Memory, b: Address)
    requires OverCounted(m, b)
    ensures Counted(Release(m, b), None)
  {
    hide Release, On;
    ReleaseEffect(m, b);
  }

  lemma ReleasePointed(m: Memory, b: Address)
    requires OverCounted(m, b) && Pointed(m)
    ensures Pointed(Release(m, b))
  {
    hide Release;
    ReleaseEffect(m, b);
    if m.bases[b].usage == 1 {
      assert On(m.proxies, b) == {};
      forall p <- m.proxies ensures m.proxies[p] != Some(b) {
        assert m.proxies[p] == Some(b) ==> p in On(m.proxies, b);
      }
    }
  }

  lemma ReleaseFreedOnce(m: Memory, b: Address)
    requires OverCounted(m, b) && FreedOnce(m)
    ensures FreedOnce(Release(m, b))
  {
    hide Release, On;
    ReleaseEffect(m, b);
  }

  lemma ReleaseOnlyUnused(m: Memory, b: Address)
    requires OverCounted(m, b)
    ensures OnlyUnused(m, Release(m, b))
    ensures Release(m, b).(bases := m.bases, freed := m.freed) == m
  {
    hide Release;
    ReleaseEffect(m, b);
    if m.bases[b].usage == 1 {
      assert On(m.proxies, b) == {};
    }
  }

  lemma ReleaseKeeps(m: Memory, b: Address)
    requires OverCounted(m, b) && Pointed(m) && FreedOnce(m)
    ensures Sound(Release(m, b))
    ensures Release(m, b).(bases := m.bases, freed := m.freed) == m && OnlyUnused(m, Release(m, b))
  {
    hide Release, On, Counted, Pointed, FreedOnce, OnlyUnused;
    ReleaseCounted(m, b);
    ReleasePointed(m, b);
    ReleaseFreedOnce(m, b);
    ReleaseOnlyUnused(m, b);
  }

  /** Counting the new base up, before the old one is counted down. */
  lemma CountedUp(m: Memory, p: Address, parent: Option<Address>, newborn: Option<Address>)
    requires Counted(m, newborn) && Pointed(m) && p in m.proxies && m.proxies[p] != parent
    requires parent.Some? ==> parent.value in m.bases
    requires newborn.Some? ==> parent == newborn
    ensures var m2 := Repointed(m, p, parent);
      && Pointed(m2)
      && if m.proxies[p].Some? then OverCounted(m2, m.proxies[p].value) else Counted(m2, None)
  {
    var m2 := Repointed(m, p, parent);
    forall b <- m2.bases
      ensures m2.bases[b].ptr.Some? && m2.bases[b].usage > 0
      ensures m2.bases[b].usage == |On(m2.proxies, b)| + if m.proxies[p] == Some(b) then 1 else 0
    {
      OnAfter(m.proxies, p, parent, b);
    }
  }

  /** The first half of setting a base. */
  function Repointed(m: Memory, p: Address, parent: Option<Address>): Memory
    requires parent.Some? ==> parent.value in m.bases
  {
    var m1 := m.(proxies := m.proxies[p := parent]);
    if parent.Some? then IncrCount(m1, parent.value) else m1
  }

  lemma RepointedOnlyUnused(m: Memory, p: Address, parent: Option<Address>, m': Memory)
    requires parent.Some? ==> parent.value in m.bases
    requires OnlyUnused(Repointed(m, p, parent), m')
    ensures OnlyUnused(m, m')
  {
    hide On;
  }

  lemma NothingUnused(m: Memory, m': Memory)
    requires m'.bases.Keys == m.bases.Keys && m'.freed == m.freed
        && forall b <- m.bases :: m'.bases[b].ptr == m.bases[b].ptr
    ensures OnlyUnused(m, m')
  {
    hide On;
  }

  lemma SetBaseKeeps(m: Memory, p: Address, parent: Option<Address>, newborn: Option<Address>)
    requires Counted(m, newborn) && Pointed(m) && FreedOnce(m) && Live(m, p)
    requires parent.Some? ==> parent.value in m.bases
    requires newborn.Some? ==> parent == newborn && m.proxies[p] != parent
    ensures var m' := SetBase(m, p, parent);
      Sound(m') && OnlyUnused(m, m') && m'.(bases := m.bases, freed := m.freed) == m.(proxies := m.proxies[p := parent])
  {
    hide Counted, OverCounted, Release, FreedOnce, Pointed, OnlyUnused, On;
    if m.proxies[p] != parent {
      CountedUp(m, p, parent, newborn);
      var m2 := Repointed(m, p, parent);
      SameFreed(m, m2);
      if m.proxies[p].Some? {
        ReleaseKeeps(m2, m.proxies[p].value);
        RepointedOnlyUnused(m, p, parent, Release(m2, m.proxies[p].value));
      } else {
        NothingUnused(m, m2);
      }
    } else {
      assert m.proxies[p := parent] == m.proxies;
      NothingUnused(m, m);
    }
  }

  lemma SameFreed(m: Memory, m': Memory)
    requires FreedOnce(m) && m'.freed == m.freed && m'.bases.Keys == m.bases.Keys && m'.nextBase == m.nextBase
    ensures FreedOnce(m')
  {}

  // ---------------------------------------------------------------- operations on proxies

  /** Bases that stay keep their value, values deleted stay deleted, and new bases have new addresses. */
  ghost predicate Stable(m: Memory, m': Memory) {
    && (forall b <- m'.bases :: if b in m.bases then m'.bases[b].ptr == m.bases[b].ptr else b >= m.nextBase)
    && m.freed <= m'.freed
    && m.nextBase <= m'.nextBase
  }

  /** A sound step that leaves the proxies and nodes given. */
  ghost predicate Step(m: Memory, m': Memory, proxies: map<Address, Option<Address>>, nodes: map<MapKey, Address>) {
    Sound(m') && Stable(m, m') && m'.proxies == proxies && m'.nodes == nodes
  }

  lemma OnlyUnusedIsStable(m: Memory, m': Memory)
    requires OnlyUnused(m, m') && m.nextBase <= m'.nextBase
    ensures Stable(m, m')
  {
    hide On;
  }

  lemma StableTransitive(m: Memory, m1: Memory, m2: Memory)
    requires FreedOnce(m) && FreedOnce(m1) && Stable(m, m1) && Stable(m1, m2)
    ensures Stable(m, m2)
  {}

  lemma SoundIsLive(m: Memory, p: Address)
    requires Sound(m) && p in m.proxies
    ensures Live(m, p) && (m.proxies[p].Some? ==> m.proxies[p].value in m.bases)
  {}

  lemma NewProxyKeeps(m: Memory)
    requires Sound(m) && m.nextProxy !in m.proxies
    ensures Step(m, NewProxy(m), m.proxies[m.nextProxy := None], m.nodes)
  {
    var m' := NewProxy(m);
    forall b <- m.bases ensures |On(m'.proxies, b)| == |On(m.proxies, b)| {
      OnAfter(m.proxies, m.nextProxy, None, b);
    }
  }

  lemma AssignKeeps(m: Memory, p: Address, parent: Option<Address>)
    requires Sound(m) && p in m.proxies && (parent.Some? ==> parent.value in m.bases)
    ensures Live(m, p)
    ensures Step(m, SetBase(m, p, parent), m.proxies[p := parent], m.nodes)
        && SetBase(m, p, parent).nextProxy == m.nextProxy
  {
    hide Counted, Pointed, FreedOnce, OnlyUnused, On, SetBase, Stable;
    SoundIsLive(m, p);
    SetBaseKeeps(m, p, parent, None);
    OnlyUnusedIsStable(m, SetBase(m, p, parent));
  }

  lemma CopyProxyKeeps(m: Memory, other: Address)
    requires Sound(m) && other in m.proxies && m.nextProxy !in m.proxies
    ensures m.proxies[other].Some? ==> m.proxies[other].value in m.bases
    ensures Step(m, CopyProxy(m, other), m.proxies[m.nextProxy := m.proxies[other]], m.nodes)
    ensures CopyProxy(m, other).nextProxy == m.nextProxy + 1
  {
    hide Counted, Pointed, FreedOnce, OnlyUnused, On, SetBase, Stable;
    SoundIsLive(m, other);
    NewProxyKeeps(m);
    var m1 := NewProxy(m);
    AssignKeeps(m1, m.nextProxy, m.proxies[other]);
    StableTransitive(m, m1, SetBase(m1, m.nextProxy, m.proxies[other]));
    assert m.proxies[m.nextProxy := None][m.nextProxy := m.proxies[other]]
        == m.proxies[m.nextProxy := m.proxies[other]];
  }

  lemma CountedWithout(m: Memory, p: Address)
    requires Sound(m) && p in m.proxies
    ensures var m1 := m.(proxies := m.proxies - {p});
      Pointed(m1) && FreedOnce(m1)
          && if m.proxies[p].Some? then OverCounted(m1, m.proxies[p].value) else Counted(m1, None)
  {
    var m1 := m.(proxies := m.proxies - {p});
    forall b <- m.bases ensures |On(m1.proxies, b)| == |On(m.proxies, b)| - if m.proxies[p] == Some(b) then 1 else 0 {
      OnAfter(m.proxies, p, None, b);
    }
  }

  lemma DestroyProxyKeeps(m: Memory, p: Address)
    requires Sound(m) && p in m.proxies
    ensures Live(m, p)
    ensures Step(m, DestroyProxy(m, p), m.proxies - {p}, m.nodes) && DestroyProxy(m, p).nextProxy == m.nextProxy
  {
    hide Counted, Pointed, FreedOnce, OverCounted, OnlyUnused, On, Release, Stable;
    SoundIsLive(m, p);
    CountedWithout(m, p);
    var m1 := m.(proxies := m.proxies - {p});
    if m.proxies[p].Some? {
      ReleaseKeeps(m1, m.proxies[p].value);
      OnlyUnusedFrom(m, m1, Release(m1, m.proxies[p].value));
    } else {
      NothingUnused(m, m1);
    }
    OnlyUnusedIsStable(m, DestroyProxy(m, p));
  }

  lemma OnlyUnusedFrom(m: Memory, m1: Memory, m': Memory)
    requires m1.bases == m.bases && m1.freed == m.freed && OnlyUnused(m1, m')
    ensures OnlyUnused(m, m')
  {
    hide On;
  }

  /** The base of a value just handed over. */
  function WithNewborn(m: Memory, value: Value): Memory {
    m.(bases := m.bases[m.nextBase := Base(Some(value), 0)], nextBase := m.nextBase + 1)
  }

  lemma NewbornCounted(m: Memory, value: Value)
    requires Sound(m)
    ensures m.nextBase !in m.bases
    ensures var m1 := WithNewborn(m, value);
      Counted(m1, Some(m.nextBase)) && Pointed(m1) && FreedOnce(m1) && Stable(m, m1)
  {
    var m1 := WithNewborn(m, value);
    forall p <- m.proxies ensures m.proxies[p] != Some(m.nextBase) {}
    assert On(m.proxies, m.nextBase) == {};
  }

  lemma ResetKeeps(m: Memory, p: Address, value: Value)
    requires Sound(m) && p in m.proxies
    ensures Live(m, p) && m.nextBase !in m.bases
    ensures var m' := Reset(m, p, value);
      && Step(m, m', m.proxies[p := Some(m.nextBase)], m.nodes) && m'.nextProxy == m.nextProxy
      && m.nextBase in m'.bases && m'.bases[m.nextBase].ptr == Some(value)
  {
    hide Counted, FreedOnce, OnlyUnused, On, SetBase, Stable;
    SoundIsLive(m, p);
    NewbornCounted(m, value);
    var m1 := WithNewborn(m, value);
    SetBaseKeeps(m1, p, Some(m.nextBase), Some(m.nextBase));
    var m' := SetBase(m1, p, Some(m.nextBase));
    OnlyUnusedIsStable(m1, m');
    StableTransitive(m, m1, m');
    assert m'.proxies[p] == Some(m.nextBase);
    NewbornKeepsValue(m1, m', m.nextBase);
  }

  lemma NewbornKeepsValue(m: Memory, m': Memory, b: Address)
    requires Stable(m, m') && b in m.bases && b in m'.bases
    ensures m'.bases[b].ptr == m.bases[b].ptr
  {}

  // ---------------------------------------------------------------- operations on the map

  /**
   A value wrapped for the first time: a proxy is reset to it, another made from that one, and the first destroyed.
   */
  ghost function Create(m: Memory, value: Value): Memory
    requires Inv(m)
  {
    CreateKeeps(m, value);
    DestroyProxy(CopyProxy(Reset(NewProxy(m), m.nextProxy, value), m.nextProxy), m.nextProxy)
  }

  lemma CreateKeeps(m: Memory, value: Value)
    requires Inv(m)
    ensures m.nextProxy !in m.proxies && m.nextBase !in m.bases
    ensures var m1 := NewProxy(m);
      && Live(m1, m.nextProxy)
      && var m2 := Reset(m1, m.nextProxy, value);
      && m.nextProxy in m2.proxies && m2.nextProxy == m.nextProxy + 1
      && (m2.proxies[m.nextProxy].Some? ==> m2.proxies[m.nextProxy].value in m2.bases)
      && var m3 := CopyProxy(m2, m.nextProxy);
      && Live(m3, m.nextProxy)
      && var m4 := DestroyProxy(m3, m.nextProxy);
      && Step(m, m4, m.proxies[m.nextProxy + 1 := Some(m.nextBase)], m.nodes) && m4.nextProxy == m.nextProxy + 2
      && m.nextBase in m4.bases && m4.bases[m.nextBase].ptr == Some(value)
  {
    hide Counted, Pointed, FreedOnce, On, Release, SetBase, Stable;
    var p, b := m.nextProxy, m.nextBase;
    NewProxyKeeps(m);
    var m1 := NewProxy(m);
    ResetKeeps(m1, p, value);
    var m2 := Reset(m1, p, value);
    CopyProxyKeeps(m2, p);
    var m3 := CopyProxy(m2, p);
    DestroyProxyKeeps(m3, p);
    var m4 := DestroyProxy(m3, p);
    StableTransitive(m, m1, m2);
    StableTransitive(m, m2, m3);
    StableTransitive(m, m3, m4);
    StableTransitive(m2, m3, m4);
    assert m4.proxies == m.proxies[p + 1 := Some(b)];
    assert m4.proxies[p + 1] == Some(b);
    SoundIsLive(m4, p + 1);
    NewbornKeepsValue(m2, m4, b);
  }

  /** An existing node's proxy is reset to the value; otherwise a new node gets a copy of a proxy made for it. */
  ghost function InsertOrUpdate(m: Memory, key: MapKey, value: Value): Memory
    requires Inv(m)
  {
    if key in m.nodes then
      InvSound(m, m.nodes[key]);
      Reset(m, m.nodes[key], value)
    else
      Create(m, value).(nodes := m.nodes[key := m.nextProxy + 1])
  }

  lemma InsertKeeps(m: Memory, key: MapKey, value: Value)
    requires Inv(m)
    ensures var p, m' := if key in m.nodes then m.nodes[key] else m.nextProxy + 1, InsertOrUpdate(m, key, value);
      && Step(m, m', m.proxies[p := Some(m.nextBase)], m.nodes[key := p]) && m'.nextProxy >= m.nextProxy
          && p < m'.nextProxy
      && m.nextBase in m'.bases && m'.bases[m.nextBase].ptr == Some(value)
  {
    hide Counted, Pointed, FreedOnce, On, Release, SetBase, Stable, Create;
    if key in m.nodes {
      ResetKeeps(m, m.nodes[key], value);
      assert m.nodes[key := m.nodes[key]] == m.nodes;
    } else {
      CreateStep(m, value);
      NodesDoNotMatter(m, Create(m, value), m.nodes[key := m.nextProxy + 1]);
    }
  }

  lemma CreateStep(m: Memory, value: Value)
    requires Inv(m)
    ensures var m' := Create(m, value);
      && Step(m, m', m.proxies[m.nextProxy + 1 := Some(m.nextBase)], m.nodes) && m'.nextProxy == m.nextProxy + 2
      && m.nextBase in m'.bases && m'.bases[m.nextBase].ptr == Some(value)
  {
    hide Sound, On, SetBase, Stable;
    CreateKeeps(m, value);
  }

  lemma NodesDoNotMatter(m: Memory, m1: Memory, nodes: map<MapKey, Address>)
    requires Sound(m1) && Stable(m, m1)
    ensures Step(m, m1.(nodes := nodes), m1.proxies, nodes)
  {}

  /** The node goes, and its proxy with it. */
  ghost function Erase(m: Memory, key: MapKey): Memory
    requires Inv(m)
  {
    if key in m.nodes then
      InvSound(m, m.nodes[key]);
      DestroyProxy(m, m.nodes[key]).(nodes := m.nodes - {key})
    else m
  }

  lemma EraseKeeps(m: Memory, key: MapKey)
    requires Inv(m)
    ensures Step(m, Erase(m, key), if key in m.nodes then m.proxies - {m.nodes[key]} else m.proxies, m.nodes - {key})
    ensures Erase(m, key).nextProxy == m.nextProxy
  {
    hide Counted, Pointed, FreedOnce, On, Release, DestroyProxy, Stable;
    if key in m.nodes {
      DestroyProxyKeeps(m, m.nodes[key]);
      NodesDoNotMatter(m, DestroyProxy(m, m.nodes[key]), m.nodes - {key});
    } else {
      StableItself(m);
      assert m.nodes - {key} == m.nodes;
    }
  }

  /** A copy of the node's proxy is made and moved into the result. */
  ghost function GetOption(m: Memory, key: MapKey): (Memory, Option<Address>)
    requires Inv(m)
  {
    if key in m.nodes then
      GetKeeps(m, m.nodes[key]);
      (DestroyProxy(CopyProxy(CopyProxy(m, m.nodes[key]), m.nextProxy), m.nextProxy), Some(m.nextProxy + 1))
    else (m, None)
  }

  lemma GetKeeps(m: Memory, other: Address)
    requires Inv(m) && other in m.proxies
    ensures other != m.nextProxy && (m.proxies[other].Some? ==> m.proxies[other].value in m.bases)
    ensures var m1 := CopyProxy(m, other);
      && m.nextProxy in m1.proxies && m1.nextProxy == m.nextProxy + 1
      && (m1.proxies[m.nextProxy].Some? ==> m1.proxies[m.nextProxy].value in m1.bases)
      && var m2 := CopyProxy(m1, m.nextProxy);
      && Live(m2, m.nextProxy)
      && var m3 := DestroyProxy(m2, m.nextProxy);
      && Step(m, m3, m.proxies[m.nextProxy + 1 := m.proxies[other]], m.nodes) && m3.nextProxy == m.nextProxy + 2
  {
    hide Counted, Pointed, FreedOnce, On, Release, SetBase, Stable;
    var p := m.nextProxy;
    CopyProxyKeeps(m, other);
    var m1 := CopyProxy(m, other);
    CopyProxyKeeps(m1, p);
    var m2 := CopyProxy(m1, p);
    DestroyProxyKeeps(m2, p);
    var m3 := DestroyProxy(m2, p);
    StableTransitive(m, m1, m2);
    StableTransitive(m, m2, m3);
    assert m3.proxies == m.proxies[p + 1 := m.proxies[other]];
  }

  // ---------------------------------------------------------------- runs

  datatype Event =
    | Created(value: Value)
    | Copied(other: Address)
    | Assigned(proxy: Address, other: Address)
    | WasReset(proxy: Address, value: Value)
    | Destroyed(proxy: Address)
    | InsertedOrUpdated(key: MapKey, value: Value)
    | Erased(key: MapKey)
    | Got(key: MapKey)

  /** The proxies outside the map's nodes: the ones its users have. */
  predicate Outside(m: Memory, p: Address) {
    p in m.proxies && p !in m.nodes.Values
  }

  /** Users work on their own proxies only. */
  predicate Enabled(m: Memory, e: Event) {
    match e
    case Copied(other) => Outside(m, other)
    case Assigned(proxy, other) => Outside(m, proxy) && Outside(m, other)
    case WasReset(proxy, _) => Outside(m, proxy)
    case Destroyed(proxy) => Outside(m, proxy)
    case _ => true
  }

  /** The proxies after an event. */
  function ProxiesAfter(m: Memory, e: Event): map<Address, Option<Address>>
    requires Enabled(m, e) && forall k <- m.nodes :: m.nodes[k] in m.proxies
  {
    match e
    case Created(_) => m.proxies[m.nextProxy + 1 := Some(m.nextBase)]
    case Copied(other) => m.proxies[m.nextProxy := m.proxies[other]]
    case Assigned(proxy, other) => m.proxies[proxy := m.proxies[other]]
    case WasReset(proxy, _) => m.proxies[proxy := Some(m.nextBase)]
    case Destroyed(proxy) => m.proxies - {proxy}
    case InsertedOrUpdated(key, _) =>
        m.proxies[if key in m.nodes then m.nodes[key] else m.nextProxy + 1 := Some(m.nextBase)]
    case Erased(key) => if key in m.nodes then m.proxies - {m.nodes[key]} else m.proxies
    case Got(key) => if key in m.nodes then m.proxies[m.nextProxy + 1 := m.proxies[m.nodes[key]]] else m.proxies
  }

  function NodesAfter(m: Memory, e: Event): map<MapKey, Address> {
    match e
    case InsertedOrUpdated(key, _) => if key in m.nodes then m.nodes else m.nodes[key := m.nextProxy + 1]
    case Erased(key) => m.nodes - {key}
    case _ => m.nodes
  }

  lemma InvSound(m: Memory, p: Address)
    requires Inv(m)
    ensures m.nextProxy !in m.proxies && m.nextBase !in m.bases
    ensures p in m.proxies ==> p != m.nextProxy && Live(m, p) && (m.proxies[p].Some? ==> m.proxies[p].value in m.bases)
  {}

  ghost function Next(m: Memory, e: Event): Memory
    requires Inv(m) && Enabled(m, e)
  {
    match e
    case Created(value) => Create(m, value)
    case Copied(other) => InvSound(m, other); CopyProxy(m, other)
    case Assigned(proxy, other) => InvSound(m, proxy); InvSound(m, other); Assign(m, proxy, other)
    case WasReset(proxy, value) => InvSound(m, proxy); Reset(m, proxy, value)
    case Destroyed(proxy) => InvSound(m, proxy); DestroyProxy(m, proxy)
    case InsertedOrUpdated(key, value) => InsertOrUpdate(m, key, value)
    case Erased(key) => Erase(m, key)
    case Got(key) => GetOption(m, key).0
  }

  lemma EventEffect(m: Memory, e: Event)
    requires Inv(m) && Enabled(m, e)
    ensures Step(m, Next(m, e), ProxiesAfter(m, e), NodesAfter(m, e))
    ensures Next(m, e).nextProxy >= m.nextProxy && forall p <- ProxiesAfter(m, e) :: p < Next(m, e).nextProxy
  {
    hide Counted, Pointed, FreedOnce, On, Release, SetBase, Stable, Create, InsertOrUpdate, Erase;
    match e {
      case Created(value) => CreateStep(m, value);
      case Copied(other) =>
        InvSound(m, other);
        CopyProxyKeeps(m, other);
      case Assigned(proxy, other) =>
        InvSound(m, other);
        AssignKeeps(m, proxy, m.proxies[other]);
      case WasReset(proxy, value) => ResetKeeps(m, proxy, value);
      case Destroyed(proxy) => DestroyProxyKeeps(m, proxy);
      case InsertedOrUpdated(key, value) =>
        InsertKeeps(m, key, value);
        assert key in m.nodes ==> m.nodes[key := m.nodes[key]] == m.nodes;
      case Erased(key) => EraseKeeps(m, key);
      case Got(key) => GotStep(m, key);
    }
  }

  lemma GotStep(m: Memory, key: MapKey)
    requires Inv(m)
    ensures var r := GetOption(m, key);
      && Step(m, r.0, if key in m.nodes then m.proxies[m.nextProxy + 1 := m.proxies[m.nodes[key]]] else m.proxies,
              m.nodes)
      && r.0.nextProxy == (if key in m.nodes then m.nextProxy + 2 else m.nextProxy)
      && r.1 == (if key in m.nodes then Some(m.nextProxy + 1) else None)
  {
    hide Sound, On, SetBase, Stable;
    if key in m.nodes {
      GetKeeps(m, m.nodes[key]);
    } else {
      StableItself(m);
    }
  }

  lemma StableItself(m: Memory)
    ensures Stable(m, m)
  {}

  lemma KeepsInv(m: Memory, e: Event)
    requires Inv(m) && Enabled(m, e)
    ensures Inv(Next(m, e))
  {
    hide Sound, Next, Stable;
    EventEffect(m, e);
  }

  ghost predicate IsRun(m: Memory, events: seq<Event>, m': Memory)
    requires Inv(m)
    decreases |events|
  {
    if events == [] then m' == m
    else Enabled(m, events[0]) && (KeepsInv(m, events[0]); IsRun(Next(m, events[0]), events[1..], m'))
  }

  lemma {:induction false} RunKeeps(m: Memory, events: seq<Event>, m': Memory)
    requires Inv(m) && IsRun(m, events, m')
    ensures Inv(m') && Stable(m, m')
    decreases |events|
  {
    hide Sound, NodesOwn, Next, Enabled, Stable;
    if events == [] {
      StableItself(m);
    } else {
      var m1 := Next(m, events[0]);
      KeepsInv(m, events[0]);
      NextStable(m, events[0]);
      RunKeeps(m1, events[1..], m');
      InvFreedOnce(m);
      InvFreedOnce(m1);
      StableTransitive(m, m1, m');
    }
  }

  lemma InvFreedOnce(m: Memory)
    requires Inv(m)
    ensures FreedOnce(m)
  {}

  lemma NextStable(m: Memory, e: Event)
    requires Inv(m) && Enabled(m, e)
    ensures Stable(m, Next(m, e))
  {
    hide Next, Sound;
    EventEffect(m, e);
  }

  // ---------------------------------------------------------------- what follows

  lemma EmptyInv()
    ensures Inv(EMPTY)
  {}

  ghost predicate Reachable(m: Memory) {
    EmptyInv();
    exists events :: IsRun(EMPTY, events, m)
  }

  lemma ReachableInv(m: Memory)
    requires Reachable(m)
    ensures Inv(m)
  {
    EmptyInv();
    var events :| IsRun(EMPTY, events, m);
    RunKeeps(EMPTY, events, m);
  }

  /** In every run each live base has its value, and its count is the number of proxies on it, at least one. */
  lemma UsageIsProxies(m: Memory, b: Address)
    requires Reachable(m) && b in m.bases
    ensures m.bases[b].ptr.Some? && m.bases[b].usage == |On(m.proxies, b)| >= 1
  {
    ReachableInv(m);
  }

  /** Of every base ever made the value is deleted exactly once when no proxy is on it any more, and not before. */
  lemma FreedExactlyWhenUnused(m: Memory, b: Address)
    requires Reachable(m) && b < m.nextBase
    ensures b in m.freed <==> On(m.proxies, b) == {}
    ensures b in m.freed <==> b !in m.bases
    ensures multiset(m.freed)[b] <= 1
  {
    ReachableInv(m);
    if b in m.bases {
      assert m.bases[b].usage == |On(m.proxies, b)|;
    }
    OnceInList(m.freed, b);
  }

  lemma {:induction false} OnceInList(list: seq<Address>, b: Address)
    requires forall i, j | 0 <= i < j < |list| :: list[i] != list[j]
    ensures multiset(list)[b] <= 1
    decreases |list|
  {
    if list != [] {
      OnceInList(list[1..], b);
      assert list == [list[0]] + list[1..];
      assert list[0] == b ==> b !in list[1..];
    }
  }

  /** The value a proxy denotes. */
  function Denotes(m: Memory, p: Address): Option<Value> {
    if p in m.proxies && m.proxies[p].Some? && m.proxies[p].value in m.bases
    then m.bases[m.proxies[p].value].ptr else None
  }

  predicate Touches(e: Event, p: Address) {
    match e
    case Assigned(proxy, _) => proxy == p
    case WasReset(proxy, _) => proxy == p
    case Destroyed(proxy) => proxy == p
    case _ => false
  }

  lemma StaysPut(m: Memory, e: Event, p: Address)
    requires Inv(m) && Enabled(m, e) && Outside(m, p) && !Touches(e, p)
    ensures var m' := Next(m, e); Outside(m', p) && m'.proxies[p] == m.proxies[p]
  {
    hide Next, Sound, Stable;
    EventEffect(m, e);
  }

  /** A user's proxy keeps denoting the value it was given, whatever happens to other proxies and to the map. */
  lemma {:induction false} SnapshotStable(m: Memory, events: seq<Event>, m': Memory, p: Address)
    requires Inv(m) && IsRun(m, events, m') && Outside(m, p) && forall e <- events :: !Touches(e, p)
    ensures Outside(m', p) && Denotes(m', p) == Denotes(m, p)
    ensures m.proxies[p].Some? ==> Denotes(m, p).Some?
    decreases |events|
  {
    hide Next, Stable, NodesOwn, Enabled, Sound;
    InvDenotes(m, p);
    if events != [] {
      var m1 := Next(m, events[0]);
      StaysPut(m, events[0], p);
      KeepsInv(m, events[0]);
      NextStable(m, events[0]);
      SameValue(m, m1, p);
      SnapshotStable(m1, events[1..], m', p);
    }
  }

  lemma InvDenotes(m: Memory, p: Address)
    requires Inv(m) && Outside(m, p)
    ensures p in m.proxies && (m.proxies[p].Some? ==> Denotes(m, p).Some?)
  {}

  lemma SameValue(m: Memory, m': Memory, p: Address)
    requires Inv(m) && Inv(m') && Stable(m, m') && p in m.proxies && p in m'.proxies && m'.proxies[p] == m.proxies[p]
    ensures Denotes(m', p) == Denotes(m, p)
  {}

  // ---------------------------------------------------------------- the map seen from outside

  /** The map from keys to values that the nodes stand for. */
  ghost function Contents(m: Memory): map<MapKey, Value>
    requires Inv(m)
  {
    NodesDenote(m);
    map k <- m.nodes :: Denotes(m, m.nodes[k]).value
  }

  lemma NodesDenote(m: Memory)
    requires Inv(m)
    ensures forall k <- m.nodes :: Denotes(m, m.nodes[k]).Some?
  {}

  /**
   What is stored afterwards: an insertion or update sets one key, an erasure removes one, all else changes nothing.
   */
  function ContentsAfter(contents: map<MapKey, Value>, e: Event): map<MapKey, Value> {
    match e
    case InsertedOrUpdated(key, value) => contents[key := value]
    case Erased(key) => contents - {key}
    case _ => contents
  }

  lemma NodeProxyAfter(m: Memory, e: Event, k: MapKey)
    requires Inv(m) && Enabled(m, e) && k in NodesAfter(m, e)
    ensures var p := NodesAfter(m, e)[k];
      if e.InsertedOrUpdated? && e.key == k then p in ProxiesAfter(m, e) && ProxiesAfter(m, e)[p] == Some(m.nextBase)
      else k in m.nodes && p == m.nodes[k] && p in ProxiesAfter(m, e) && ProxiesAfter(m, e)[p] == m.proxies[p]
  {
    hide Sound;
  }

  lemma InsertedValue(m: Memory, key: MapKey, value: Value)
    requires Inv(m)
    ensures var m' := Next(m, InsertedOrUpdated(key, value));
        m.nextBase in m'.bases && m'.bases[m.nextBase].ptr == Some(value)
  {
    hide Sound, Stable, InsertOrUpdate;
    InsertKeeps(m, key, value);
  }

  /** The nodes and their versioned pointers behave as a plain map. */
  lemma MapRefined(m: Memory, e: Event)
    requires Inv(m) && Enabled(m, e)
    ensures Inv(Next(m, e)) && Contents(Next(m, e)) == ContentsAfter(Contents(m), e)
  {
    hide Sound, Next, Stable, ProxiesAfter, Denotes, NodesOwn;
    KeepsInv(m, e);
    EventEffect(m, e);
    NodesDenote(m);
    NodesDenote(Next(m, e));
    var m' := Next(m, e);
    forall k <- m'.nodes ensures Denotes(m', m'.nodes[k]).value == ContentsAfter(Contents(m), e)[k] {
      KeyAfter(m, e, k);
    }
  }

  lemma KeyAfter(m: Memory, e: Event, k: MapKey)
    requires Inv(m) && Enabled(m, e) && Inv(Next(m, e)) && k in Next(m, e).nodes
    ensures k in ContentsAfter(Contents(m), e)
        && Denotes(Next(m, e), Next(m, e).nodes[k]) == Some(ContentsAfter(Contents(m), e)[k])
  {
    hide Sound, Next, Stable, ProxiesAfter;
    EventEffect(m, e);
    NodeProxyAfter(m, e, k);
    NodesDenote(m);
    if e.InsertedOrUpdated? && e.key == k {
      InsertedValue(m, e.key, e.value);
    } else {
      SameValue(m, Next(m, e), m.nodes[k]);
    }
  }

  /**
   The proxy handed out is the user's own, and denotes what the map holds under the key; without the key there is
   none.
   */
  lemma GetOptionDenotes(m: Memory, key: MapKey)
    requires Inv(m)
    ensures var r := GetOption(m, key);
      && (r.1.None? <==> key !in Contents(m))
      && (r.1.Some? ==>
            && r.0 == Next(m, Got(key)) && Outside(r.0, r.1.value)
            && Denotes(r.0, r.1.value) == Some(Contents(m)[key]))
  {
    hide Sound, Stable, CopyProxy, DestroyProxy;
    GotStep(m, key);
    if key in m.nodes {
      var m' := GetOption(m, key).0;
      KeepsInv(m, Got(key));
      NodesDenote(m);
      SameNode(m, m', key);
    }
  }

  lemma SameNode(m: Memory, m': Memory, key: MapKey)
    requires Inv(m) && Inv(m') && Stable(m, m') && key in m.nodes && m'.nodes == m.nodes
    requires m'.proxies == m.proxies[m.nextProxy + 1 := m.proxies[m.nodes[key]]]
    ensures Outside(m', m.nextProxy + 1) && Denotes(m', m.nextProxy + 1) == Denotes(m, m.nodes[key])
  {
    SameValue(m, m', m.nodes[key]);
  }

  // ---------------------------------------------------------------- the operations on fields

  /** The memory the pointers live in.  As each operation is one step, its compare-and-swap succeeds the first time. */
  class Heap {
    var bases: map<Address, Base>
    var proxies: map<Address, Option<Address>>
    var nodes: map<MapKey, Address>
    ghost var freed: seq<Address>
    var nextBase: Address
    var nextProxy: Address

    ghost function State(): Memory
      reads this
    {
      Memory(bases, proxies, nodes, freed, nextBase, nextProxy)
    }

    constructor ()
      ensures State() == EMPTY && Inv(State())
    {
      bases, proxies, nodes, freed, nextBase, nextProxy := map[], map[], map[], [], 0, 0;
      new;
      EmptyInv();
    }

    method Incr(b: Address)
      requires b in bases
      modifies this`bases
      ensures State() == IncrCount(old(State()), b)
    {
      bases := bases[b := bases[b].(usage := bases[b].usage + 1)];
    }

    method Decr(b: Address) returns (count: nat)
      requires b in bases && bases[b].usage > 0
      modifies this`bases, this`freed
      ensures State() == DecrCount(old(State()), b) && b in bases && count == bases[b].usage
    {
      count := bases[b].usage - 1;
      bases := bases[b := bases[b].(usage := count)];
      if count == 0 {
        freed := freed + [b];
        bases := bases[b := Base(None, 0)];
      }
    }

    method Delete(b: Address)
      requires b in bases
      modifies this`bases, this`freed
      ensures State() == DeleteBase(old(State()), b)
    {
      if bases[b].ptr.Some? {
        freed := freed + [b];
      }
      bases := bases - {b};
    }

    method Set(p: Address, parent: Option<Address>)
      requires Live(State(), p) && (parent.Some? ==> parent.value in bases)
      modifies this`proxies, this`bases, this`freed
      ensures State() == SetBase(old(State()), p, parent)
    {
      var prev := proxies[p];
      if prev == parent {
        return;
      }
      proxies := proxies[p := parent];
      if parent.Some? {
        Incr(parent.value);
      }
      if prev.Some? {
        var count := Decr(prev.value);
        if count == 0 {
          Delete(prev.value);
        }
      }
    }

    method New() returns (p: Address)
      modifies this`proxies, this`nextProxy
      ensures p == old(nextProxy) && State() == NewProxy(old(State()))
    {
      p := nextProxy;
      proxies, nextProxy := proxies[p := None], nextProxy + 1;
    }

    method Copy(other: Address) returns (p: Address)
      requires other in proxies && other != nextProxy && (proxies[other].Some? ==> proxies[other].value in bases)
      modifies this`proxies, this`bases, this`freed, this`nextProxy
      ensures p == old(nextProxy) && State() == CopyProxy(old(State()), other)
    {
      p := New();
      Set(p, proxies[other]);
    }

    method Destroy(p: Address)
      requires Live(State(), p)
      modifies this`proxies, this`bases, this`freed
      ensures State() == DestroyProxy(old(State()), p)
    {
      var base := proxies[p];
      proxies := proxies - {p};
      if base.Some? {
        var count := Decr(base.value);
        if count == 0 {
          Delete(base.value);
        }
      }
    }

    method ResetTo(p: Address, value: Value)
      requires Live(State(), p) && nextBase !in bases
      modifies this`proxies, this`bases, this`freed, this`nextBase
      ensures State() == Reset(old(State()), p, value)
    {
      var b := nextBase;
      bases, nextBase := bases[b := Base(Some(value), 0)], nextBase + 1;
      Set(p, Some(b));
    }

    method InsertOrUpdateKey(key: MapKey, value: Value)
      requires Inv(State())
      modifies this
      ensures State() == InsertOrUpdate(old(State()), key, value) && Inv(State())
    {
      hide Sound, NodesOwn, SetBase, CopyProxy, DestroyProxy, Reset, NewProxy;
      ghost var m := State();
      KeepsInv(m, InsertedOrUpdated(key, value));
      if key in nodes {
        KeyLive(m, key);
        ResetTo(nodes[key], value);
      } else {
        CreateKeeps(m, value);
        var item := New();
        ResetTo(item, value);
        var node := Copy(item);
        nodes := nodes[key := node];
        DestroyAside(CopyProxy(Reset(NewProxy(m), m.nextProxy, value), m.nextProxy), item, nodes);
        Destroy(item);
      }
    }

    method EraseKey(key: MapKey) returns (erased: bool)
      requires Inv(State())
      modifies this
      ensures State() == Erase(old(State()), key) && Inv(State()) && (erased <==> key in old(nodes))
    {
      hide Sound, NodesOwn, DestroyProxy;
      ghost var m := State();
      KeepsInv(m, Erased(key));
      if key !in nodes {
        return false;
      }
      KeyLive(m, key);
      var p := nodes[key];
      nodes := nodes - {key};
      DestroyAside(m, p, nodes);
      Destroy(p);
      return true;
    }

    method GetOptionOf(key: MapKey) returns (found: Option<Address>)
      requires Inv(State())
      modifies this
      ensures (State(), found) == GetOption(old(State()), key) && Inv(State())
    {
      hide Sound, NodesOwn, CopyProxy, DestroyProxy;
      ghost var m := State();
      KeepsInv(m, Got(key));
      if key !in nodes {
        return None;
      }
      KeyLive(m, key);
      GetKeeps(m, m.nodes[key]);
      var temporary := Copy(nodes[key]);
      var result := Copy(temporary);
      Destroy(temporary);
      found := Some(result);
    }
  }

  lemma KeyLive(m: Memory, key: MapKey)
    requires Inv(m) && key in m.nodes
    ensures var p := m.nodes[key];
      && p in m.proxies && p != m.nextProxy && Live(m, p) && m.nextBase !in m.bases
      && (m.proxies[p].Some? ==> m.proxies[p].value in m.bases)
  {
    InvSound(m, m.nodes[key]);
  }

  /** Destroying a proxy does not look at the nodes. */
  lemma DestroyAside(m: Memory, p: Address, nodes: map<MapKey, Address>)
    requires Live(m, p)
    ensures Live(m.(nodes := nodes), p)
    ensures DestroyProxy(m.(nodes := nodes), p) == DestroyProxy(m, p).(nodes := nodes)
  {}

}

/**
 The script tree on linked lists: sections hang on the script, entries on their
 section; building, finding and deleting.
 */
module ScriptTree {
  import opened S = Script
  import opened ListRing

  /** Delete the last entry until none is left. */
  method EmptyList(h: Hook, ghost ns: seq<Hook>)
    requires Ring(h, ns)
    modifies Hooks(h, ns)
    ensures Ring(h, [])
  {
    ghost var cur := ns;
    var o := Last(h, cur);
    while o != null
      invariant cur <= ns && Ring(h, cur)
      invariant if cur == [] then o == null else o == cur[|cur| - 1]
      decreases |cur|
    {
      ghost var k := |cur| - 1;
      HookIsNotEmpty(h, cur, k);
      Neighbours(h, cur, k);
      assert Hooks(h, cur) <= Hooks(h, ns);
      if o.prev != o { Remove(o, h, cur, k); }
      assert Without(cur, k) == cur[..k];
      cur := cur[..k];
      o := Last(h, cur);
    }
  }

  /** The neighbours of a hook belong to its ring. */
  lemma Neighbours(h: Hook, ns: seq<Hook>, k: nat)
    requires Ring(h, ns) && k < |ns|
    ensures ns[k].prev in Hooks(h, ns) && ns[k].next in Hooks(h, ns)
  {
    assert Linked(At(h, ns, k), At(h, ns, k + 1));
    assert Linked(At(h, ns, k + 1), At(h, ns, k + 2));
    AtMember(h, ns, k);
    AtMember(h, ns, k + 2);
  }

  lemma LastNeighbour(h: Hook, ns: seq<Hook>)
    requires Ring(h, ns)
    ensures h.prev in Hooks(h, ns)
  {
    assert Linked(At(h, ns, |ns|), At(h, ns, |ns| + 1));
    AtMember(h, ns, |ns|);
  }

  /** No hook is in two lists. */
  ghost predicate Separate(root: Hook, secs: seq<Hook>, heads: seq<Hook>, ents: seq<seq<Hook>>, repr: set<Hook>) {
    && |secs| == |heads| == |ents| && Hooks(root, secs) <= repr
    && (forall i :: 0 <= i < |secs| ==> secs[i].entries == heads[i])
    && (forall i :: 0 <= i < |secs| ==> Hooks(heads[i], ents[i]) <= repr && Hooks(heads[i], ents[i]) !! Hooks(root, secs))
    && (forall i, j :: 0 <= i < j < |secs| ==> Hooks(heads[i], ents[i]) !! Hooks(heads[j], ents[j]))
  }

  /** A section of new hooks. */
  lemma AddSection(root: Hook, secs: seq<Hook>, heads: seq<Hook>, ents: seq<seq<Hook>>, repr: set<Hook>, s: Hook, e: Hook)
    requires Separate(root, secs, heads, ents, repr) && s !in repr && e !in repr && s != e && s.entries == e
    ensures Separate(root, secs + [s], heads + [e], ents + [[]], repr + {s, e})
  {
    hide Hooks;
    HooksMore(root, secs, s);
    HooksNone(e);
  }

  /** An entry of a new hook. */
  lemma AddEntry(root: Hook, secs: seq<Hook>, heads: seq<Hook>, ents: seq<seq<Hook>>, repr: set<Hook>, i: nat, e: Hook)
    requires Separate(root, secs, heads, ents, repr) && e !in repr && i < |secs|
    ensures Separate(root, secs, heads, ents[i := ents[i] + [e]], repr + {e})
  {
    hide Hooks;
    HooksMore(heads[i], ents[i], e);
  }

  /** One remaining section after dropping section `k`. */
  lemma DropInside(root: Hook, secs: seq<Hook>, heads: seq<Hook>, ents: seq<seq<Hook>>, repr: set<Hook>, k: nat, i: nat)
    requires Separate(root, secs, heads, ents, repr) && k < |secs| && i < |secs| - 1
    ensures Drop(secs, k)[i].entries == Drop(heads, k)[i]
    ensures Hooks(Drop(heads, k)[i], Drop(ents, k)[i]) <= repr - Hooks(heads[k], ents[k])
    ensures Hooks(Drop(heads, k)[i], Drop(ents, k)[i]) !! Hooks(root, Drop(secs, k))
  {
    hide Hooks;
    HooksFewer(root, secs, k);
    var o := if i < k then i else i + 1;
    assert Hooks(heads[o], ents[o]) !! Hooks(root, secs) && Hooks(heads[o], ents[o]) <= repr;
    if o < k {
      assert Hooks(heads[o], ents[o]) !! Hooks(heads[k], ents[k]);
    } else {
      assert Hooks(heads[k], ents[k]) !! Hooks(heads[o], ents[o]);
    }
  }

  lemma DropApart(heads: seq<Hook>, ents: seq<seq<Hook>>, k: nat, i: nat, j: nat)
    requires |heads| == |ents| && k < |heads| && i < j < |heads| - 1
    requires forall i, j :: 0 <= i < j < |heads| ==> Hooks(heads[i], ents[i]) !! Hooks(heads[j], ents[j])
    ensures Hooks(Drop(heads, k)[i], Drop(ents, k)[i]) !! Hooks(Drop(heads, k)[j], Drop(ents, k)[j])
  {
    hide Hooks;
    var o, p := if i < k then i else i + 1, if j < k then j else j + 1;
    assert Hooks(heads[o], ents[o]) !! Hooks(heads[p], ents[p]);
  }

  lemma WithoutIsDrop(ns: seq<Hook>, k: nat)
    requires k < |ns|
    ensures Without(ns, k) == Drop(ns, k)
  {}

  /** A head that points to itself is an empty list. */
  ghost predicate Alone(h: Hook)
    reads h
  {
    h.prev == h && h.next == h
  }

  lemma AloneIsRing(h: Hook)
    ensures Alone(h) <==> Ring(h, [])
  {
    if Ring(h, []) { assert Linked(At(h, [], 0), At(h, [], 1)); }
  }

  lemma DropCleared(ents: seq<seq<Hook>>, k: nat)
    requires k < |ents|
    ensures Drop(ents[k := []], k) == Drop(ents, k)
  {}

  /** Emptying one list keeps the lists apart. */
  lemma ClearEntries(root: Hook, secs: seq<Hook>, heads: seq<Hook>, ents: seq<seq<Hook>>, repr: set<Hook>, k: nat)
    requires Separate(root, secs, heads, ents, repr) && k < |secs|
    ensures Separate(root, secs, heads, ents[k := []], repr)
  {
    hide Hooks;
    HooksNone(heads[k]);
    HooksHead(heads[k], ents[k]);
  }

  /** What section `k` shares with the rest: nothing. */
  lemma Apartness(root: Hook, secs: seq<Hook>, heads: seq<Hook>, ents: seq<seq<Hook>>, repr: set<Hook>, k: nat)
    requires Separate(root, secs, heads, ents, repr) && k < |secs|
    ensures |secs| == |heads| == |ents| && secs[k].entries == heads[k]
    ensures Hooks(root, secs) <= repr && Hooks(heads[k], ents[k]) <= repr && Hooks(heads[k], ents[k]) !! Hooks(root, secs)
    ensures forall i :: 0 <= i < |secs| && i != k ==>
              && Hooks(heads[i], ents[i]) <= repr
              && Hooks(heads[i], ents[i]) !! Hooks(heads[k], ents[k]) && Hooks(heads[i], ents[i]) !! Hooks(root, secs)
  {
    hide Hooks;
  }

  /** Dropping one section. */
  lemma DropSection(root: Hook, secs: seq<Hook>, heads: seq<Hook>, ents: seq<seq<Hook>>, repr: set<Hook>, k: nat)
    requires Separate(root, secs, heads, ents, repr) && k < |secs|
    ensures Separate(root, Drop(secs, k), Drop(heads, k), Drop(ents, k), repr - Hooks(heads[k], ents[k]))
    ensures Hooks(root, Drop(secs, k)) <= Hooks(root, secs)
    ensures heads[k] in Hooks(heads[k], ents[k])
  {
    hide Hooks, Drop;
    var secs', heads', ents', repr' := Drop(secs, k), Drop(heads, k), Drop(ents, k), repr - Hooks(heads[k], ents[k]);
    HooksHead(heads[k], ents[k]);
    HooksFewer(root, secs, k);
    forall i | 0 <= i < |secs'|
      ensures secs'[i].entries == heads'[i]
      ensures Hooks(heads'[i], ents'[i]) <= repr' && Hooks(heads'[i], ents'[i]) !! Hooks(root, secs')
    {
      DropInside(root, secs, heads, ents, repr, k, i);
    }
    forall i, j | 0 <= i < j < |secs'| ensures Hooks(heads'[i], ents'[i]) !! Hooks(heads'[j], ents'[j]) {
      DropApart(heads, ents, k, i, j);
    }
  }

  function Drop<T>(s: seq<T>, k: nat): (r: seq<T>)
    requires k < |s|
    ensures |r| == |s| - 1
    ensures forall i :: 0 <= i < |r| ==> r[i] == if i < k then s[i] else s[i + 1]
  {
    s[..k] + s[k + 1..]
  }

  // ----- the tree a linked script stands for

  function EntriesOf(ns: seq<Hook>): (es: seq<Entry>)
    ensures |es| == |ns|
  {
    seq(|ns|, k requires 0 <= k < |ns| => Entry(ns[k].name, ns[k].value))
  }

  function TreeOf(secs: seq<Hook>, ents: seq<seq<Hook>>): (t: Tree)
    requires |secs| == |ents|
    ensures |t| == |secs|
    ensures forall i :: 0 <= i < |t| ==> t[i] == Section(secs[i].name, EntriesOf(ents[i]))
  {
    seq(|secs|, i requires 0 <= i < |secs| => Section(secs[i].name, EntriesOf(ents[i])))
  }

  lemma TreeGrows(secs: seq<Hook>, ents: seq<seq<Hook>>, s: Hook)
    requires |secs| == |ents|
    ensures TreeOf(secs + [s], ents + [[]]) == TreeOf(secs, ents) + [Section(s.name, [])]
  {
    assert EntriesOf([]) == [];
  }

  lemma TreeEntry(secs: seq<Hook>, ents: seq<seq<Hook>>, i: nat, e: Hook)
    requires |secs| == |ents| && i < |secs|
    ensures TreeOf(secs, ents[i := ents[i] + [e]]) == WithEntry(TreeOf(secs, ents), i, Entry(e.name, e.value))
  {
    assert EntriesOf(ents[i] + [e]) == EntriesOf(ents[i]) + [Entry(e.name, e.value)];
  }

  lemma TreeShrinks(secs: seq<Hook>, ents: seq<seq<Hook>>, k: nat)
    requires |secs| == |ents| && k < |secs|
    ensures TreeOf(Drop(secs, k), Drop(ents, k)) == Drop(TreeOf(secs, ents), k)
  {}

  /** The entries of a list, in order. */
  method ReadEntries(h: Hook, ghost ns: seq<Hook>) returns (es: seq<Entry>)
    requires Ring(h, ns)
    ensures es == EntriesOf(ns)
  {
    es := [];
    var o := First(h, ns);
    ghost var k := 0;
    while o != null
      invariant 0 <= k <= |ns| && es == EntriesOf(ns)[..k]
      invariant if k < |ns| then o == ns[k] else o == null
      decreases |ns| - k
    {
      es := es + [Entry(o.name, o.value)];
      o := Next(h, o, ns, k);
      k := k + 1;
    }
  }

  class Script {
    const sections: Hook
    /** The sections in order, the heads of their lists and their entries. */
    ghost var secs: seq<Hook>
    ghost var heads: seq<Hook>
    ghost var ents: seq<seq<Hook>>
    ghost var repr: set<Hook>

    /** Every list is a ring of its own. */
    ghost predicate Valid()
      reads this, repr
    {
      && Separate(sections, secs, heads, ents, repr) && Ring(sections, secs)
      && forall i :: 0 <= i < |secs| ==> Ring(heads[i], ents[i])
    }

    /** The tree the lists stand for. */
    ghost function Value(): Tree
      requires |secs| == |ents|
      reads this
    {
      TreeOf(secs, ents)
    }

    /** `script_new`. */
    constructor ()
      ensures Valid() && Value() == [] && fresh(repr)
    {
      sections := new Hook([], Null, null);
      secs, heads, ents, repr := [], [], [], {sections};
    }

    /** `script_section_new`. */
    method SectionNew(name: Text) returns (s: Hook)
      requires Valid() && name != []
      modifies this, Hooks(sections, secs)
      ensures Valid() && secs == old(secs) + [s] && fresh(repr - old(repr)) && fresh(s)
      ensures Value() == old(Value()) + [Section(Cut(name), [])]
    {
      hide Ring, Hooks;
      var e := new Hook([], Null, null);
      s := new Hook(Cut(name), Null, e);
      LastNeighbour(sections, secs);
      HooksHead(sections, secs);
      AddSection(sections, secs, heads, ents, repr, s, e);
      HooksNone(e);
      TreeGrows(secs, ents, s);
      Append(sections, s, secs);
      secs, heads, ents, repr := secs + [s], heads + [e], ents + [[]], repr + {s, e};
    }

    /** `script_entry_append`: the entries of section `i` get one more, at the end. */
    method EntryNew(section: Hook, name: Text, value: Value, ghost i: nat) returns (e: Hook)
      requires Valid() && i < |secs| && section == secs[i]
      modifies this, Hooks(heads[i], ents[i])
      ensures Valid() && secs == old(secs) && fresh(repr - old(repr)) && fresh(e)
      ensures Value() == WithEntry(old(Value()), i, Entry(Cut(name), value))
    {
      hide Ring, Hooks;
      e := new Hook(Cut(name), value, null);
      LastNeighbour(heads[i], ents[i]);
      AddEntry(sections, secs, heads, ents, repr, i, e);
      HooksHead(heads[i], ents[i]);
      TreeEntry(secs, ents, i, e);
      assert secs[i].entries == heads[i];
      Append(section.entries, e, ents[i]);
      ents, repr := ents[i := ents[i] + [e]], repr + {e};
    }

    /** `script_find_section`. */
    method FindSection(name: Text) returns (r: Hook?)
      requires Valid()
      ensures IsFirstNamed(secs, name, r)
    {
      r := Find(sections, name, secs);
    }

    /** `script_find_entry`, in section `i`. */
    method FindEntry(section: Hook, name: Text, ghost i: nat) returns (r: Hook?)
      requires Valid() && i < |secs| && section == secs[i]
      ensures IsFirstNamed(ents[i], name, r)
    {
      assert secs[i].entries == heads[i];
      r := Find(section.entries, name, ents[i]);
    }

    /** Walking all lists, as the generators do, gives exactly the tree. */
    method ToTree() returns (t: Tree)
      requires Valid()
      ensures t == Value()
    {
      hide Ring, Hooks;
      t := [];
      var o := First(sections, secs);
      ghost var k := 0;
      while o != null
        invariant 0 <= k <= |secs| && t == Value()[..k]
        invariant if k < |secs| then o == secs[k] else o == null
        decreases |secs| - k
      {
        assert secs[k].entries == heads[k];
        var es := ReadEntries(o.entries, ents[k]);
        t := t + [Section(o.name, es)];
        o := Next(sections, o, secs, k);
        k := k + 1;
      }
    }

    /** The loop of `script_section_delete`: the section's own list becomes empty. */
    method EmptySection(section: Hook, ghost k: nat)
      requires Valid() && k < |secs| && section == secs[k]
      modifies this`ents, Hooks(heads[k], ents[k])
      ensures Valid() && ents == old(ents)[k := []]
    {
      hide Ring, Hooks, Separate;
      Apartness(sections, secs, heads, ents, repr, k);
      ClearEntries(sections, secs, heads, ents, repr, k);
      HooksNone(heads[k]);
      EmptyList(section.entries, ents[k]);
      assert Ring(sections, secs) && Ring(heads[k], []);
      assert forall i :: 0 <= i < |secs| && i != k ==> Ring(heads[i], ents[i]);
      ents := ents[k := []];
    }

    /** And its end: the emptied section leaves the list of sections. */
    method Unlink(section: Hook, ghost k: nat)
      requires Valid() && k < |secs| && section == secs[k] && ents[k] == []
      modifies this, Hooks(sections, secs)
      ensures Valid() && secs == Drop(old(secs), k) && heads == Drop(old(heads), k) && ents == Drop(old(ents), k)
      ensures repr == old(repr) - {old(heads[k])} && Ring(old(heads[k]), [])
    {
      hide Ring, Hooks, Separate;
      Apartness(sections, secs, heads, ents, repr, k);
      DropSection(sections, secs, heads, ents, repr, k);
      HooksNone(heads[k]);
      HookIsNotEmpty(sections, secs, k);
      Neighbours(sections, secs, k);
      if section.prev != section { Remove(section, sections, secs, k); }
      WithoutIsDrop(secs, k);
      assert forall i :: 0 <= i < |secs| ==> Ring(heads[i], ents[i]);
      secs, heads, ents, repr := Drop(secs, k), Drop(heads, k), Drop(ents, k), repr - {heads[k]};
    }

    /** `script_section_delete`, for any section: empty it, then unlink it. */
    method SectionDelete(section: Hook, ghost k: nat)
      requires Valid() && k < |secs| && section == secs[k]
      modifies this, repr
      ensures Valid() && Value() == Drop(old(Value()), k)
      ensures secs == Drop(old(secs), k) && heads == Drop(old(heads), k)
      ensures repr < old(repr) && old(heads[k]) !in repr && Alone(old(heads[k]))
    {
      hide Ring, Hooks, Separate;
      Apartness(sections, secs, heads, ents, repr, k);
      HooksHead(heads[k], ents[k]);
      TreeShrinks(secs, ents, k);
      DropCleared(ents, k);
      EmptySection(section, k);
      Apartness(sections, secs, heads, ents, repr, k);
      Unlink(section, k);
      AloneIsRing(old(heads[k]));
    }

    /** `script_delete`: terminates with every list of the script empty. */
    method Delete()
      requires Valid()
      modifies this, repr
      ensures Valid() && Value() == [] && Ring(sections, [])
      ensures forall i :: 0 <= i < |old(heads)| ==> Ring(old(heads)[i], [])
    {
      hide Ring, Hooks, Separate;
      ghost var hs := heads;
      Same();
      var o := Last(sections, secs);
      while o != null
        invariant Valid() && repr <= old(repr) && |secs| == |heads| == |ents| <= |hs| && heads == hs[..|heads|]
        invariant if secs == [] then o == null else o == secs[|secs| - 1]
        invariant forall i :: |heads| <= i < |hs| ==> hs[i] !in repr && Alone(hs[i])
        decreases |secs|
      {
        SectionDelete(o, |secs| - 1);
        Same();
        o := Last(sections, secs);
      }
      forall i | 0 <= i < |hs| ensures Ring(hs[i], []) { AloneIsRing(hs[i]); }
    }

    lemma Same()
      requires Valid()
      ensures |secs| == |heads| == |ents|
    {}
  }

  lemma HooksMore(h: Hook, ns: seq<Hook>, l: Hook)
    ensures Hooks(h, ns + [l]) == Hooks(h, ns) + {l}
  {}

  lemma HooksNone(h: Hook)
    ensures Hooks(h, []) == {h}
  {}

  lemma HooksHead(h: Hook, ns: seq<Hook>)
    ensures h in Hooks(h, ns)
  {}

  lemma HooksFewer(h: Hook, ns: seq<Hook>, k: nat)
    requires k < |ns|
    ensures Hooks(h, Drop(ns, k)) <= Hooks(h, ns)
  {}
}

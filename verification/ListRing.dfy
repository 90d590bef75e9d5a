/**
 The circular doubly linked list every script is built from: hooks around a head,
 refining a sequence.
 */
module ListRing {
  import opened Script

  /** A list hook together with what the node around it holds. */
  class Hook {
    var prev: Hook
    var next: Hook
    const name: Text
    /** The value, when the node is an entry. */
    const value: Value
    /** Head of the list of entries, when the node is a section. */
    const entries: Hook?

    /** `list_init`. */
    constructor (name: Text, value: Value, entries: Hook?)
      ensures Ring(this, []) && this.name == name && this.value == value && this.entries == entries
    {
      this.name, this.value, this.entries := name, value, entries;
      prev, next := this, this;
    }
  }

  /** Position 0 and position |ns| + 1 are both the head. */
  function At(h: Hook, ns: seq<Hook>, i: nat): Hook
    requires i <= |ns| + 1
  {
    if i == 0 || i == |ns| + 1 then h else ns[i - 1]
  }

  predicate Distinct(h: Hook, ns: seq<Hook>) {
    && (forall i :: 0 <= i < |ns| ==> ns[i] != h)
    && forall i, j :: 0 <= i < j < |ns| ==> ns[i] != ns[j]
  }

  ghost function Hooks(h: Hook, ns: seq<Hook>): set<Hook> {
    {h} + set n | n in ns
  }

  /** The hooks reached from `h` are exactly `ns`, both ways round. */
  ghost predicate Ring(h: Hook, ns: seq<Hook>)
    reads Hooks(h, ns)
  {
    && Distinct(h, ns)
    && forall i :: 0 <= i <= |ns| ==> Linked(At(h, ns, i), At(h, ns, i + 1))
  }

  ghost predicate Linked(a: Hook, b: Hook)
    reads a, b
  {
    a.next == b && b.prev == a
  }

  function Inserted(ns: seq<Hook>, k: nat, l: Hook): seq<Hook>
    requires k <= |ns|
  {
    ns[..k] + [l] + ns[k..]
  }

  function Without(ns: seq<Hook>, k: nat): seq<Hook>
    requires k < |ns|
  {
    ns[..k] + ns[k + 1..]
  }

  lemma InsertedAt(h: Hook, ns: seq<Hook>, k: nat, l: Hook, i: nat)
    requires k <= |ns| && i <= |ns| + 2
    ensures At(h, Inserted(ns, k, l), i) == if i <= k then At(h, ns, i) else if i == k + 1 then l else At(h, ns, i - 1)
  {}

  lemma WithoutAt(h: Hook, ns: seq<Hook>, k: nat, i: nat)
    requires k < |ns| && i <= |ns|
    ensures At(h, Without(ns, k), i) == if i <= k then At(h, ns, i) else At(h, ns, i + 1)
  {}

  /** Two positions hold the same hook only if they are equal or both the head. */
  lemma AtInjective(h: Hook, ns: seq<Hook>, i: nat, j: nat)
    requires Distinct(h, ns) && i <= |ns| && j <= |ns| && At(h, ns, i) == At(h, ns, j)
    ensures i == j
  {}

  lemma AtMember(h: Hook, ns: seq<Hook>, i: nat)
    requires i <= |ns| + 1
    ensures At(h, ns, i) in Hooks(h, ns)
  {}

  lemma InsertedDistinct(h: Hook, ns: seq<Hook>, k: nat, l: Hook)
    requires k <= |ns| && Distinct(h, ns) && l !in Hooks(h, ns)
    ensures Distinct(h, Inserted(ns, k, l))
  {}

  lemma NextInjective(h: Hook, ns: seq<Hook>, i: nat, j: nat)
    requires Distinct(h, ns) && i <= |ns| && j <= |ns| && At(h, ns, i + 1) == At(h, ns, j + 1)
    ensures i == j
  {}

  /** Link `i` has nothing to do with the `next` of position `a` or the `prev` behind position `b`. */
  ghost predicate Spared(h: Hook, ns: seq<Hook>, i: nat, a: nat, b: nat)
    requires i <= |ns| && a <= |ns| && b <= |ns|
    reads Hooks(h, ns)
  {
    && Linked(At(h, ns, i), At(h, ns, i + 1))
    && At(h, ns, i) != At(h, ns, a) && At(h, ns, i + 1) != At(h, ns, b + 1)
  }

  /** All other links of the ring are spared. */
  lemma LinksSpared(h: Hook, ns: seq<Hook>, a: nat, b: nat)
    requires Ring(h, ns) && a <= |ns| && b <= |ns|
    ensures forall i :: 0 <= i <= |ns| && i != a && i != b ==> Spared(h, ns, i, a, b)
  {
    forall i | 0 <= i <= |ns| && i != a && i != b ensures Spared(h, ns, i, a, b) {
      if At(h, ns, i) == At(h, ns, a) { AtInjective(h, ns, i, a); }
      if At(h, ns, i + 1) == At(h, ns, b + 1) { NextInjective(h, ns, i, b); }
    }
  }

  /** `list_inject`: put `l` between two neighbours. */
  method Inject(l: Hook, prev: Hook, next: Hook, ghost h: Hook, ghost ns: seq<Hook>, ghost k: nat)
    requires Ring(h, ns) && k <= |ns| && l !in Hooks(h, ns)
    requires prev == At(h, ns, k) && next == At(h, ns, k + 1)
    modifies l, prev, next
    ensures Ring(h, Inserted(ns, k, l))
  {
    hide Inserted, Distinct;
    AtMember(h, ns, k);
    AtMember(h, ns, k + 1);
    forall i | 0 <= i <= |ns| + 1 ensures At(h, ns, i) in Hooks(h, ns) { AtMember(h, ns, i); }
    LinksSpared(h, ns, k, k);
    InsertedDistinct(h, ns, k, l);
    ghost var ms := Inserted(ns, k, l);
    InsertedLength(ns, k, l);
    hide Hooks, At;
    l.prev := prev;
    l.next := next;
    next.prev := l;
    prev.next := l;
    forall i | 0 <= i <= |ms| ensures Linked(At(h, ms, i), At(h, ms, i + 1)) {
      InsertedAt(h, ns, k, l, i);
      InsertedAt(h, ns, k, l, i + 1);
      if i < k {
        assert old(Spared(h, ns, i, k, k));
      } else if i > k + 1 {
        assert old(Spared(h, ns, i - 1, k, k));
      }
    }
  }

  lemma InsertedLength(ns: seq<Hook>, k: nat, l: Hook)
    requires k <= |ns|
    ensures |Inserted(ns, k, l)| == |ns| + 1
  {}

  /** `list_append`. */
  method Append(h: Hook, l: Hook, ghost ns: seq<Hook>)
    requires Ring(h, ns) && l !in Hooks(h, ns)
    modifies h, h.prev, l
    ensures Ring(h, ns + [l])
  {
    assert Linked(At(h, ns, |ns|), At(h, ns, |ns| + 1));
    Inject(l, h.prev, h, h, ns, |ns|);
    assert Inserted(ns, |ns|, l) == ns + [l];
  }

  /** `list_insert`. */
  method Insert(h: Hook, l: Hook, ghost ns: seq<Hook>)
    requires Ring(h, ns) && l !in Hooks(h, ns)
    modifies h, h.next, l
    ensures Ring(h, [l] + ns)
  {
    assert Linked(At(h, ns, 0), At(h, ns, 1));
    Inject(l, h, h.next, h, ns, 0);
    assert Inserted(ns, 0, l) == [l] + ns;
  }

  /** `list_remove`: unlink the `k`-th hook; the hook itself keeps its pointers. */
  method Remove(l: Hook, ghost h: Hook, ghost ns: seq<Hook>, ghost k: nat)
    requires Ring(h, ns) && k < |ns| && l == ns[k]
    modifies l.prev, l.next
    ensures Ring(h, Without(ns, k))
  {
    hide Without, Distinct;
    assert Linked(At(h, ns, k), At(h, ns, k + 1));
    assert Linked(At(h, ns, k + 1), At(h, ns, k + 2));
    LinksSpared(h, ns, k, k + 1);
    WithoutDistinct(h, ns, k);
    ghost var ms := Without(ns, k);
    var prev, next := l.prev, l.next;
    hide Hooks, At;
    next.prev := prev;
    prev.next := next;
    forall i | 0 <= i <= |ms| ensures Linked(At(h, ms, i), At(h, ms, i + 1)) {
      WithoutAt(h, ns, k, i);
      WithoutAt(h, ns, k, i + 1);
      if i < k {
        assert old(Spared(h, ns, i, k, k + 1));
      } else if i > k {
        assert old(Spared(h, ns, i + 1, k, k + 1));
      }
    }
  }

  lemma WithoutDistinct(h: Hook, ns: seq<Hook>, k: nat)
    requires k < |ns| && Distinct(h, ns)
    ensures Distinct(h, Without(ns, k)) && |Without(ns, k)| == |ns| - 1
  {}

  // ----- walking

  /** `list_first`. */
  method First(h: Hook, ghost ns: seq<Hook>) returns (r: Hook?)
    requires Ring(h, ns)
    ensures if ns == [] then r == null else r == ns[0]
  {
    assert Linked(At(h, ns, 0), At(h, ns, 1));
    r := if h.next == h then null else h.next;
  }

  /** `list_last`. */
  method Last(h: Hook, ghost ns: seq<Hook>) returns (r: Hook?)
    requires Ring(h, ns)
    ensures if ns == [] then r == null else r == ns[|ns| - 1]
  {
    assert Linked(At(h, ns, |ns|), At(h, ns, |ns| + 1));
    r := if h.prev == h then null else h.prev;
  }

  /** `list_next`. */
  method Next(h: Hook, e: Hook, ghost ns: seq<Hook>, ghost k: nat) returns (r: Hook?)
    requires Ring(h, ns) && k < |ns| && e == ns[k]
    ensures if k + 1 == |ns| then r == null else r == ns[k + 1]
  {
    assert Linked(At(h, ns, k + 1), At(h, ns, k + 2));
    r := if e.next == h then null else e.next;
  }

  /** `list_empty`. */
  method Empty(h: Hook, ghost ns: seq<Hook>) returns (empty: bool)
    requires Ring(h, ns)
    ensures empty <==> ns == []
  {
    assert Linked(At(h, ns, |ns|), At(h, ns, |ns| + 1));
    empty := h.prev == h;
  }

  /** A hook that is in a list is not empty. */
  lemma HookIsNotEmpty(h: Hook, ns: seq<Hook>, k: nat)
    requires Ring(h, ns) && k < |ns|
    ensures ns[k].prev != ns[k] && ns[k].next != ns[k]
  {
    assert Linked(At(h, ns, k), At(h, ns, k + 1));
    assert Linked(At(h, ns, k + 1), At(h, ns, k + 2));
    if k > 0 { assert ns[k - 1] != ns[k]; }
  }

  /** Walking from the first hook visits the whole list in order, each hook once. */
  method Traverse(h: Hook, ghost ns: seq<Hook>) returns (visited: seq<Hook>)
    requires Ring(h, ns)
    ensures visited == ns
  {
    visited := [];
    var o := First(h, ns);
    while o != null
      invariant |visited| <= |ns| && visited == ns[..|visited|]
      invariant if |visited| == |ns| then o == null else o == ns[|visited|]
      decreases |ns| - |visited|
    {
      ghost var k := |visited|;
      visited := visited + [o];
      o := Next(h, o, ns, k);
    }
  }

  /** `r` is the first of the hooks with the name, null if there is none. */
  ghost predicate IsFirstNamed(ns: seq<Hook>, name: Text, r: Hook?) {
    if r == null then forall j :: 0 <= j < |ns| ==> ns[j].name != name
    else r.name == name && exists k :: 0 <= k < |ns| && ns[k] == r && forall j :: 0 <= j < k ==> ns[j].name != name
  }

  /** `script_find_section` and `script_find_entry`: the first hook of that name. */
  method Find(h: Hook, name: Text, ghost ns: seq<Hook>) returns (r: Hook?)
    requires Ring(h, ns)
    ensures IsFirstNamed(ns, name, r)
  {
    ghost var k := 0;
    r := First(h, ns);
    while r != null
      invariant 0 <= k <= |ns| && forall j :: 0 <= j < k ==> ns[j].name != name
      invariant if k < |ns| then r == ns[k] else r == null
      decreases |ns| - k
    {
      if r.name == name { return; }
      r := Next(h, r, ns, k);
      k := k + 1;
    }
  }
}

/**
 The tree both file formats of the script compiler share: named sections of
 named entries.
 */
module Script {
  import opened BitVectors
  import opened Memory

  type i32 = x: int | -0x8000_0000 <= x < 0x8000_0000

  /** An 8-bit character. */
  type c8 = c: char | (c as int) < 0x100
  type Text = seq<c8>

  /** The four settings of a GPIO entry: function, pull, drive level, data. */
  type Four = s: seq<i32> | |s| == 4 witness [0, 0, 0, 0]

  datatype Value =
    | Null
    | Single(value: u32)
    | Str(s: Text)
    | Gpio(port: u32, num: u32, data: Four)

  datatype Entry = Entry(name: Text, value: Value)
  datatype Section = Section(name: Text, entries: seq<Entry>)
  type Tree = seq<Section>

  /**
   How reading ends: with a value, with an error message, or by leaving the file
   or violating an assertion, which the reader itself does not prevent.
   */
  datatype Res<T> = Ok(value: T) | Refused | Fault

  /** The port number of a power pin. */
  const POWER: u32 := 0xFFFF
  const GPIO_BANK_MAX: nat := 14

  /** The longest name the tree stores. */
  const NAME_MAX: nat := 31

  function U32(x: i32): (w: u32) {
    if x < 0 then x + TWO32 else x
  }

  function S32(w: u32): (x: i32) {
    if w >= 0x8000_0000 then w - TWO32 else w
  }

  predicate NulFree(t: Text) {
    forall i :: 0 <= i < |t| ==> t[i] != '\0'
  }

  /** Names as the tree's constructors leave them. */
  predicate NameOk(t: Text) {
    |t| <= NAME_MAX && NulFree(t)
  }

  /** Names are cut when the tree stores them. */
  function Cut(name: Text): (r: Text)
    ensures |r| <= NAME_MAX && r <= name && (|name| <= NAME_MAX ==> r == name)
  {
    if |name| > NAME_MAX then name[..NAME_MAX] else name
  }

  predicate PortKnown(port: u32) {
    port == POWER || 1 <= port <= GPIO_BANK_MAX
  }

  /** An entry added to section `i`. */
  function WithEntry(t: Tree, i: nat, e: Entry): Tree
    requires i < |t|
  {
    t[i := Section(t[i].name, t[i].entries + [e])]
  }

  /** All entries of the first `j` sections, in order. */
  function All(t: Tree, j: nat): (es: seq<Entry>)
    requires j <= |t|
  {
    if j == 0 then [] else All(t, j - 1) + t[j - 1].entries
  }

  lemma AllNext(t: Tree, j: nat)
    requires j < |t|
    ensures All(t, j + 1) == All(t, j) + t[j].entries
  {}

  lemma {:induction false} AllPrefix(t: Tree, j: nat, k: nat)
    requires j <= k <= |t|
    ensures All(t, j) <= All(t, k)
    decreases k
  {
    if j < k { AllPrefix(t, j, k - 1); }
  }

  /** Entries done before entry `c` of section `j`. */
  function Before(t: Tree, j: nat, c: nat): (es: seq<Entry>)
    requires j < |t| && c <= |t[j].entries|
  {
    All(t, j) + t[j].entries[..c]
  }

  lemma BeforeNext(t: Tree, j: nat, c: nat)
    requires j < |t| && c < |t[j].entries|
    ensures Before(t, j, c + 1) == Before(t, j, c) + [t[j].entries[c]]
    ensures Before(t, j, c + 1) <= All(t, |t|)
  {
    hide All;
    AllNext(t, j);
    AllPrefix(t, j + 1, |t|);
    assert Before(t, j, c + 1) <= All(t, j + 1);
  }
}

/**
 Both file formats together: a script that survives the text form also survives
 the binary form, except for the port bank only the text form knows.
 */
module ScriptRoundTrip {
  import opened Script
  import opened ScriptLayout
  import opened ScriptDecompile
  import opened FexWriter
  import opened FexParser
  import opened FexRoundTrip

  lemma LegalEntryIsSound(e: Entry)
    requires LegalEntry(e)
    ensures Sound(e)
  {}

  lemma LegalIsSound(t: Tree)
    requires Legal(t) && Size(t) < 0x8000_0000
    ensures SoundTree(t)
  {
    forall j | 0 <= j < |t| ensures SoundSection(t[j]) {
      assert LegalPath(t[j].name);
      forall i | 0 <= i < |t[j].entries| ensures Sound(t[j].entries[i]) {
        LegalEntryIsSound(t[j].entries[i]);
      }
    }
  }

  /**
   Text to tree to binary to tree: the compiler followed by the decompiler is
   the identity on printed scripts within the format's limits, and refuses the rest.
   */
  lemma TextBinaryText(t: Tree)
    requires Legal(t) && Size(t) < 0x8000_0000
    ensures ParseText(FexText(t, 0), []) == Ok(t)
    ensures Fits(t)
    ensures Decode(Image(t)) == if |t| <= SECTION_LIMIT && KnownSections(t, 0) then Ok(t) else Refused
  {
    hide Decode, ParseText, FexText, Image, Size, Legal, Fits, KnownSections;
    LegalIsSound(t);
    FexRoundTrip.RoundTrip(t);
    ScriptDecompile.RoundTrip(t);
  }

  /** Two printed scripts are equal texts only if they are equal scripts. */
  lemma TextIsInjective(t: Tree, u: Tree)
    requires Legal(t) && Legal(u) && FexText(t, 0) == FexText(u, 0)
    ensures t == u
  {
    hide ParseText, FexText, Legal;
    FexRoundTrip.RoundTrip(t);
    FexRoundTrip.RoundTrip(u);
  }

  function BankO(): Tree {
    [Section(['s'], [Entry(['k'], Gpio(GPIO_BANK_MAX + 1, 0, [-1, -1, -1, -1]))])]
  }

  lemma BankOSize()
    ensures Size(BankO()) == 120
  {
    var t := BankO();
    var e := t[0].entries[0];
    assert t[0].entries == [e];
    assert All(t, 0) == [];
    assert All(t, |t|) == [] + [e] == [e];
    WordsSnoc([], e);
    assert WordCount([e]) == 6 && |[e]| == 1;
  }

  /** Bank O passes through the text form but not through the binary form. */
  lemma BankODiffers()
    ensures ParseText(FexText(BankO(), 0), []) == Ok(BankO())
    ensures Fits(BankO()) && Decode(Image(BankO())) == Refused
  {
    hide Decode, ParseText, FexText, Image;
    var t := BankO();
    assert Legal(t) by {
      assert LegalEntry(t[0].entries[0]);
    }
    BankOSize();
    TextBinaryText(t);
    assert !Known(t[0].entries[0]);
    assert !KnownFrom(t[0].entries, 0);
  }
}

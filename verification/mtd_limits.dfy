/** A table one character too long to be loaded: add saves it, past the end of its buffer, and
    every later command refuses it. */
module MtdLimits {
  import opened MtdTypes
  import opened MtdBlocks
  import opened MtdLists
  import opened MtdText
  import opened MtdRoundTrip
  import opened MtdTable
  import opened MtdPrint
  import opened MtdCommands
  import opened Options

  const ID: MtdId := MtdId(NAND, 0, 0x10_0000, "d", Uniform(4096))

  function LongName(): string { seq(1003, _ => 'a') }

  function First(): Part { Part(4096, 0, LongName(), false, false) }

  const SECOND: Part := Part(4096, 4096, "b", false, false)
  const ADDED: string := "d:4k(b)"

  function One(): Device { Device(ID, [First()], 1) }

  function Two(): Device { Device(ID, [First(), SECOND], 2) }

  lemma NameIs()
    ensures |LongName()| == 1003 && ')' !in LongName() && NUL !in LongName() && ':' !in ID.name && NUL !in ID.name
  {
  }

  lemma PartsFit()
    ensures Fits(ID, First()) && Fits(ID, SECOND) && NameOk(First()) && NameOk(SECOND)
    ensures Sane(ID.geometry)
  {
    hide LongName;
    NameIs();
    AlignedIffWholeBlocks(ID.geometry, 0, 4096);
    AlignedIffWholeBlocks(ID.geometry, 4096, 8192);
  }

  lemma FirstText()
    ensures |PartText(0, First())| == 1007
    ensures PartText(4096, SECOND) == "4k(b)"
  {
    hide LongName;
    NameIs();
    FourK();
    hide MemsizeFormat;
    assert "4k" + [] + ("(" + "b" + ")") + [] == "4k(b)";
  }

  lemma FourK()
    ensures MemsizeFormat(4096) == "4k"
  {
    assert Dec(4) == "4";
  }

  /** The lengths of the two texts. */
  lemma Lengths()
    ensures |DevsText([One()])| == 1009 && |TableText([One()])| == 1018
    ensures |DevsText([Two()])| == 1015 && |TableText([Two()])| == 1024
  {
    hide LongName, PartText;
    FirstText();
    assert [First()][1..] == [] && [First(), SECOND][1..] == [SECOND] && [SECOND][1..] == [];
    assert PartsText([], 4096) == [] && PartsText([], 8192) == [];
    assert PartsText([SECOND], 4096) == PartText(4096, SECOND) + [] + [];
    assert PartsText([First()], 0) == PartText(0, First()) + [] + [];
    assert PartsText([First(), SECOND], 0) == PartText(0, First()) + [','] + PartsText([SECOND], 4096);
    assert [One()][1..] == [] && [Two()][1..] == [];
    hide PartsText;
    assert DevsText([]) == [];
    assert DevsText([One()]) == DevText(One()) + [] + [];
    assert DevsText([Two()]) == DevText(Two()) + [] + [];
  }

  lemma TableOk()
    ensures GoodDevices([ID], [One()]) && AllReparsable([One()]) && AllNamed([One()])
    ensures ParseTable(TableText([One()]), [ID]) == Some([One()])
  {
    NameIs();
    PartsFit();
    hide Fits, LongName, ParseTable, TableText, ReparsedDevice;
    assert StrictlySorted([First()]) && Different([First()]);
    NamedTableRoundTrip([ID], [One()]);
  }

  lemma SecondText()
    ensures PartsText([SECOND], 4096) == "4k(b)" && Reparsed([SECOND], 4096) == [SECOND]
  {
    FirstText();
    assert [SECOND][1..] == [];
    assert PartsText([SECOND], 4096) == PartText(4096, SECOND) + [] + PartsText([], 8192);
    hide PartText, PartsText, Reparsed;
    ReparsedKeeps([SECOND], 4096, 0);
  }

  lemma SecondAlone()
    ensures InsertAll([], [SECOND]) == Some([SECOND])
  {
    assert InsertAt([], 0, SECOND) == [SECOND];
    assert InsertSorted([], SECOND) == Some([SECOND]);
    assert InsertAll([SECOND], []) == Some([SECOND]);
  }

  /** The description, at the place behind the first partition. */
  lemma DescriptionParses()
    ensures ParseDevice(ADDED, 0, [ID], [One()]) == Some((Device(ID, [SECOND], 1), 7))
  {
    PartsFit();
    SecondText();
    SecondAlone();
    PartsBack();
    ColonAt();
    IdFound();
    hide Fits, LongName, PartsText, Reparsed, ParseParts, InsertAll, IndexOf, FindId;
  }

  lemma ColonAt()
    ensures IndexOf(ADDED, 0, ':') == Some(1) && ADDED[0..1] == "d"
  {
    assert IndexOf(ADDED, 1, ':') == Some(1);
  }

  lemma IdFound()
    ensures FindId([ID], "d") == Some(ID) && DefaultOffset([One()], ID) == 4096
  {
    hide LongName;
  }

  lemma PartsBack()
    ensures ParseParts(ADDED, 2, ID, 4096) == Some(([SECOND], 7))
  {
    PartsFit();
    SecondText();
    assert ADDED[2..7] == "4k(b)";
    hide Fits, LongName, PartsText, Reparsed, ParseParts, MemsizeFormat;
    PartsRoundTrip(ADDED, 2, 7, ID, [SECOND], 4096);
  }

  lemma AddedIs()
    ensures Added([ID], [One()], ADDED) == [Two()] && WouldAdd([ID], [One()], ADDED)
  {
    PartsFit();
    DescriptionParses();
    hide Fits, LongName, ParseDevice;
    assert InsertAt([First()], 1, SECOND) == [First(), SECOND];
    assert InsertPos([First()], 4096) == 1 by { InsertPosIs([First()], 4096, 1); }
    assert InsertSorted([First()], SECOND) == Some([First(), SECOND]);
    assert [One()][0 := Two()] == [Two()];
  }

  /** The printer writes one character more than last_parts has. */
  lemma OneTooMany()
    ensures Extent([Two()], MTDPARTS_MAXLEN) == MTDPARTS_MAXLEN + 1
  {
    Lengths();
    hide LongName, DevsText, TableText, Extent;
    ExtentIs([Two()], MTDPARTS_MAXLEN);
  }

  /** The commands that lead there: a text that loads, one partition added and saved, and then
      not even listing the table works. */
  method SavedThenRefused() returns (t: Table, added: int, listed: int)
    ensures added == 0 && listed == 1
    ensures t.devices == [Two()] && t.mtdparts == Some(TableText([Two()])) && |TableText([Two()])| == MTDPARTS_MAXLEN
  {
    TableOk();
    AddedIs();
    Lengths();
    PartsFit();
    hide LongName, DevsText, TableText, ParseTable, Added, WouldAdd, Fits;
    t := new Table([ID]);
    t.SetParts(Some(TableText([One()])));
    added := t.CmdAdd(ADDED);
    listed := t.CmdList();
  }
}

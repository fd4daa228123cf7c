/** One run of `fetchAndSendNotifications` from the scraped page onward:
    diff the page against the seen-id file, update the file, send the
    messages. The scrape itself is an input (the page's items). */
module Cycle {
  import opened Wrappers
  import opened SeenStore
  import opened IdExtraction
  import opened Differ
  import opened Delivery

  /** The messages one run sends, given the page and the seen-id file. */
  function CycleTrace(page: seq<Item>, file: Option<string>): seq<Message> {
    var seen := ReadFromFile(file).seen;
    FreshEntries(page, seen);
    Trace(FreshTitles(page, seen), FreshIds(page, seen))
  }

  /** `getNotification` followed by the sending part of
      `fetchAndSendNotifications`. */
  method FetchAndSendNotifications(page: seq<Item>, file: Option<string>)
    returns (sent: seq<Message>, fileAfter: string)
    ensures sent == CycleTrace(page, file)
    ensures fileAfter == SeenFileAfter(page, file)
  {
    var newContents, newNotifications;
    newContents, newNotifications, fileAfter := GetNotification(page, file);
    FreshEntries(page, ReadFromFile(file).seen);
    sent := FetchAndSend(newContents, newNotifications);
  }

  /** Running again on the same page, after the file was updated, sends only
      the ephemeral "No new notifications found.". */
  lemma SecondRunSendsOnlyAcknowledgment(page: seq<Item>, file: Option<string>)
    ensures CycleTrace(page, Some(SeenFileAfter(page, file))) == [NoNewNotifications]
  {
    SecondPollFindsNothing(page, file);
  }

  /** A run that finds nothing new sends only the acknowledgment and leaves an
      existing seen-id file as it was. */
  lemma NothingNewChangesNothing(page: seq<Item>, file: Option<string>)
    requires FreshIds(page, ReadFromFile(file).seen) == []
    ensures CycleTrace(page, file) == [NoNewNotifications]
    ensures file.Some? ==> SeenFileAfter(page, file) == file.value
  {
    FreshEntries(page, ReadFromFile(file).seen);
  }

  /** The page of the scenario below. */
  function ScenarioPage(): seq<Item> {
    [Item("A", "Detail/101"), Item("B", "Detail/102")]
  }

  lemma ScenarioIds()
    ensures ExtractId("Detail/101") == Some("101")
    ensures ExtractId("Detail/102") == Some("102")
  {
    assert "Detail/101" == [] + Marker + "101" + [];
    assert "Detail/102" == [] + Marker + "102" + [];
    ExtractIdOf([], "101", []);
    ExtractIdOf([], "102", []);
  }

  lemma ScenarioIndices()
    ensures NewIndices(ScenarioPage(), []) == [0, 1]
  {
    var page := ScenarioPage();
    ScenarioIds();
    var first := page[..1];
    assert IsNew(first[0], []) && IsNew(page[1], []);
    assert first[..0] == [];
    assert NewIndices(first[..0], []) == [];
    assert NewIndices(first, []) == [] + [0];
    assert page[..|page| - 1] == first;
    assert NewIndices(page, []) == NewIndices(first, []) + [1];
  }

  lemma ScenarioDiff()
    ensures FreshIds(ScenarioPage(), []) == ["101", "102"]
    ensures FreshTitles(ScenarioPage(), []) == ["A", "B"]
  {
    ScenarioIds();
    ScenarioIndices();
  }

  lemma ScenarioEmbeds()
    ensures BuildEmbeds(["A", "B"], ["101", "102"])
            == [Embed("1. A", DetailUrlPrefix + "101", EmbedColor), Embed("2. B", DetailUrlPrefix + "102", EmbedColor)]
  {
    var e := BuildEmbeds(["A", "B"], ["101", "102"]);
    assert Text.DecimalString(1) == "1";
    assert Text.DecimalString(2) == "2";
    assert e[0] == EmbedFor(0, "A", "101") == Embed("1" + ". " + "A", DetailUrlPrefix + "101", EmbedColor);
    assert e[1] == EmbedFor(1, "B", "102") == Embed("2" + ". " + "B", DetailUrlPrefix + "102", EmbedColor);
    assert "1" + ". " + "A" == "1. A";
    assert "2" + ". " + "B" == "2. B";
    assert e == [e[0], e[1]];
  }

  lemma ScenarioTrace()
    ensures CycleTrace(ScenarioPage(), None)
              == [Preamble,
                  Message(None, false, [Embed("1. A", DetailUrlPrefix + "101", EmbedColor),
                                        Embed("2. B", DetailUrlPrefix + "102", EmbedColor)])]
  {
    ScenarioDiff();
    ScenarioEmbeds();
    var embeds := BuildEmbeds(["A", "B"], ["101", "102"]);
    assert ReadFromFile(None).seen == [];
    assert embeds[..2] == embeds && embeds[2..] == [];
    assert Chunking.Chunks(embeds, PageSize) == [embeds];
    assert ChunkMessages([embeds]) == [Message(None, false, embeds)];
  }

  lemma ScenarioFile()
    ensures SeenFileAfter(ScenarioPage(), None) == "101\n102"
  {
    ScenarioDiff();
    assert ReadFromFile(None).seen == [];
    assert [] + ["101", "102"] == ["101", "102"];
    assert Serialise(["101", "102"]) == "101" + "\n" + "102";
  }

  /** Two items with ids 101 and 102 and no seen-id file yet: one run sends
      the preamble and one message with both embeds, numbered 1 and 2, and
      leaves the file holding "101\n102"; a second run sends only the
      acknowledgment. */
  lemma FirstRunScenario()
    ensures CycleTrace(ScenarioPage(), None)
              == [Preamble,
                  Message(None, false, [Embed("1. A", DetailUrlPrefix + "101", EmbedColor),
                                        Embed("2. B", DetailUrlPrefix + "102", EmbedColor)])]
    ensures SeenFileAfter(ScenarioPage(), None) == "101\n102"
    ensures CycleTrace(ScenarioPage(), Some("101\n102")) == [NoNewNotifications]
  {
    ScenarioTrace();
    ScenarioFile();
    SecondRunSendsOnlyAcknowledgment(ScenarioPage(), None);
  }
}

/** `fetchAndSendNotifications` after the new items are known: one embed per
    new item, the embeds split into pages of ten, and the follow-up messages
    sent through the Discord interaction, modelled as the list of messages in
    the order they are sent. */
module Delivery {
  import opened Wrappers
  import opened Text
  import opened Chunking

  const DetailUrlPrefix := "https://studentnews.tdtu.edu.vn/ThongBao/Detail/"
  const EmbedColor := 0x00AE86
  /** The number of embeds sent in one message. */
  const PageSize := 10

  datatype Embed = Embed(title: string, url: string, color: int)

  /** The argument of one `interaction.followUp` call: its text content if
      any, whether `ephemeral: true` was requested (an absent flag is
      `false`), and its embeds. */
  datatype Message = Message(content: Option<string>, ephemeral: bool, embeds: seq<Embed>)

  const NoNewNotifications := Message(Some("No new notifications found."), true, [])
  const Preamble := Message(Some("Here are the latest notifications:"), false, [])

  /** The embed of the new item at position `index` (counting from 0). */
  function EmbedFor(index: nat, title: string, id: string): Embed {
    Embed(DecimalString(index + 1) + ". " + title, DetailUrlPrefix + id, EmbedColor)
  }

  /** `newContents.map((title, index) => …)`, the id taken from
      `newNotifications[index]`. */
  function BuildEmbeds(titles: seq<string>, ids: seq<string>): (r: seq<Embed>)
    requires |titles| <= |ids|
    ensures |r| == |titles|
  {
    seq(|titles|, k requires 0 <= k < |titles| => EmbedFor(k, titles[k], ids[k]))
  }

  /** One `followUp({ embeds: chunk })` per page. */
  function ChunkMessages(chunks: seq<seq<Embed>>): (r: seq<Message>)
    ensures |r| == |chunks|
  {
    seq(|chunks|, k requires 0 <= k < |chunks| => Message(None, false, chunks[k]))
  }

  /** The messages `fetchAndSendNotifications` sends, in order. */
  function Trace(titles: seq<string>, ids: seq<string>): seq<Message>
    requires |titles| <= |ids|
  {
    if |titles| == 0 then [NoNewNotifications]
    else [Preamble] + ChunkMessages(Chunks(BuildEmbeds(titles, ids), PageSize))
  }

  /** The sending part of `fetchAndSendNotifications`: each `followUp` call
      appends its message to `sent`. */
  method FetchAndSend(newContents: seq<string>, newNotifications: seq<string>) returns (sent: seq<Message>)
    requires |newContents| <= |newNotifications|
    ensures sent == Trace(newContents, newNotifications)
  {
    if |newContents| == 0 {
      sent := [NoNewNotifications];
      return;
    }
    var embeds := BuildEmbeds(newContents, newNotifications);
    var chunks := SplitIntoChunks(embeds, PageSize);
    sent := [Preamble];
    for j := 0 to |chunks|
      invariant sent == [Preamble] + ChunkMessages(chunks[..j])
    {
      assert ChunkMessages(chunks[..j + 1]) == ChunkMessages(chunks[..j]) + [Message(None, false, chunks[j])];
      sent := sent + [Message(None, false, chunks[j])];
    }
    assert chunks[..|chunks|] == chunks;
  }

  // ---------------------------------------------------------------- embeds

  /** Every embed can be read back: its title starts with the decimal number
      `index + 1`, then `". "`, then the item's title; its url is the detail
      prefix followed by the item's id; its color is `0x00AE86`. */
  lemma EmbedReadBack(titles: seq<string>, ids: seq<string>, k: nat)
    requires |titles| <= |ids| && k < |titles|
    ensures var e := BuildEmbeds(titles, ids)[k];
            var number := DigitRun(e.title, 0);
            number == DecimalString(k + 1)
            && DecimalValue(number) == k + 1
            && number[0] != '0'
            && e.title[|number|..] == ". " + titles[k]
            && e.url[..|DetailUrlPrefix|] == DetailUrlPrefix
            && e.url[|DetailUrlPrefix|..] == ids[k]
            && e.color == EmbedColor
  {
    var e := BuildEmbeds(titles, ids)[k];
    var d := DecimalString(k + 1);
    assert e.title == d + (". " + titles[k]);
    DigitRunIs(e.title, 0, d);
    DecimalRoundTrip(k + 1);
    assert DecimalValue("0") == 0;
  }

  // ---------------------------------------------------------------- message trace

  /** The messages for new items: first the public preamble, then one public
      message per page of at most ten embeds, `ceil(n / 10)` of them; every
      page but the last is full. With nothing new, the one ephemeral "No new
      notifications found." and nothing else. */
  lemma TraceShape(titles: seq<string>, ids: seq<string>)
    requires |titles| <= |ids|
    ensures |titles| == 0 ==> Trace(titles, ids) == [NoNewNotifications]
    ensures |titles| > 0 ==>
              var t := Trace(titles, ids);
              |t| == 1 + (|titles| + PageSize - 1) / PageSize
              && t[0] == Preamble && t[0].content.Some? && !t[0].ephemeral
              && forall m :: 1 <= m < |t| ==>
                   t[m].content.None? && !t[m].ephemeral
                   && 0 < |t[m].embeds| <= PageSize
                   && (m < |t| - 1 ==> |t[m].embeds| == PageSize)
  {
    ChunkCount(BuildEmbeds(titles, ids), PageSize);
  }

  /** The embeds of the messages after the preamble, taken in order, are the
      embeds of the new items, in order. */
  lemma TraceCarriesAllEmbeds(titles: seq<string>, ids: seq<string>)
    requires |titles| <= |ids| && |titles| > 0
    ensures Flatten(EmbedsOf(Trace(titles, ids)[1..])) == BuildEmbeds(titles, ids)
  {
    var chunks := Chunks(BuildEmbeds(titles, ids), PageSize);
    assert EmbedsOf(Trace(titles, ids)[1..]) == chunks;
    FlattenChunks(BuildEmbeds(titles, ids), PageSize);
  }

  /** The embeds of a list of messages. */
  function EmbedsOf(messages: seq<Message>): (r: seq<seq<Embed>>)
    ensures |r| == |messages|
  {
    seq(|messages|, k requires 0 <= k < |messages| => messages[k].embeds)
  }

  /** Embed `p` of message `m` after the preamble is the embed of new item
      `10 * (m - 1) + p`: the numbering runs on across message boundaries. */
  lemma NumberedAcrossMessages(titles: seq<string>, ids: seq<string>, m: nat, p: nat)
    requires |titles| <= |ids| && |titles| > 0
    requires 1 <= m < |Trace(titles, ids)| && p < |Trace(titles, ids)[m].embeds|
    ensures var k := PageSize * (m - 1) + p;
            k < |titles| && Trace(titles, ids)[m].embeds[p] == EmbedFor(k, titles[k], ids[k])
  {
    var embeds := BuildEmbeds(titles, ids);
    ChunkItem(embeds, PageSize, m - 1, p);
    assert (m - 1) * PageSize == PageSize * (m - 1);
  }
}

/** The part of `getNotification` that runs after the page has been scraped:
    it reads the seen-id file, walks the list items in page order, keeps the
    ones whose id was found and is not yet seen (two parallel lists, ids and
    titles), and rewrites the file when something is new. */
module Differ {
  import opened Wrappers
  import opened Text
  import opened IdExtraction
  import opened SeenStore

  /** One `.list-item` of the notification list: the `title` attribute of its
      `.title` element and the `onclick` attribute of its `.link-detail`
      element. */
  datatype Item = Item(title: string, onclick: string)

  /** The loop's test `id && !readed_noti.includes(id)`. */
  predicate IsNew(item: Item, seen: seq<string>) {
    var id := ExtractId(item.onclick);
    id.Some? && id.value !in seen
  }

  /** The positions that hold `true`, in increasing order. */
  function Positions(flags: seq<bool>): (r: seq<nat>)
    ensures forall k :: 0 <= k < |r| ==> r[k] < |flags| && flags[r[k]]
    ensures forall k, l :: 0 <= k < l < |r| ==> r[k] < r[l]
    ensures forall j :: 0 <= j < |flags| && flags[j] ==> j in r
    decreases |flags|
  {
    if flags == [] then []
    else
      var last := |flags| - 1;
      var before := Positions(flags[..last]);
      if flags[last] then before + [last] else before
  }

  /** For each item of the page, whether the loop keeps it. */
  function NewFlags(page: seq<Item>, seen: seq<string>): (r: seq<bool>)
    ensures |r| == |page|
  {
    seq(|page|, j requires 0 <= j < |page| => IsNew(page[j], seen))
  }

  /** The positions on the page of the items the loop keeps: exactly the new
      ones, in increasing (page) order. */
  function NewIndices(page: seq<Item>, seen: seq<string>): (r: seq<nat>)
    ensures forall k :: 0 <= k < |r| ==> r[k] < |page| && IsNew(page[r[k]], seen)
    ensures forall k, l :: 0 <= k < l < |r| ==> r[k] < r[l]
    ensures forall j :: 0 <= j < |page| && IsNew(page[j], seen) ==> j in r
  {
    var flags := NewFlags(page, seen);
    assert forall j :: 0 <= j < |page| ==> flags[j] == IsNew(page[j], seen);
    Positions(flags)
  }

  /** The flags of a prefix of the page are a prefix of its flags. */
  lemma NewFlagsPrefix(page: seq<Item>, seen: seq<string>, i: nat)
    requires i <= |page|
    ensures NewFlags(page[..i], seen) == NewFlags(page, seen)[..i]
  {
  }

  /** `newNotifications` as the loop leaves it. */
  function FreshIds(page: seq<Item>, seen: seq<string>): seq<string> {
    var ix := NewIndices(page, seen);
    seq(|ix|, k requires 0 <= k < |ix| => ExtractId(page[ix[k]].onclick).value)
  }

  /** `newContents` as the loop leaves it. */
  function FreshTitles(page: seq<Item>, seen: seq<string>): seq<string> {
    var ix := NewIndices(page, seen);
    seq(|ix|, k requires 0 <= k < |ix| => page[ix[k]].title)
  }

  /** One more item of the page adds its id and title exactly when it is new. */
  lemma FreshStep(page: seq<Item>, seen: seq<string>, i: nat)
    requires i < |page|
    ensures FreshIds(page[..i + 1], seen)
            == FreshIds(page[..i], seen) + if IsNew(page[i], seen) then [ExtractId(page[i].onclick).value] else []
    ensures FreshTitles(page[..i + 1], seen)
            == FreshTitles(page[..i], seen) + if IsNew(page[i], seen) then [page[i].title] else []
  {
    var prefix := page[..i + 1];
    assert prefix[..i] == page[..i];
    NewFlagsPrefix(prefix, seen, i);
    var flags := NewFlags(prefix, seen);
    assert flags[i] == IsNew(page[i], seen);
    assert NewIndices(prefix, seen)
           == NewIndices(page[..i], seen) + if IsNew(page[i], seen) then [i] else [];
  }

  /** The loop of `getNotification` over the list items. */
  method CollectNew(page: seq<Item>, seen: seq<string>) returns (newNotifications: seq<string>, newContents: seq<string>)
    ensures newNotifications == FreshIds(page, seen)
    ensures newContents == FreshTitles(page, seen)
  {
    newNotifications, newContents := [], [];
    for i := 0 to |page|
      invariant newNotifications == FreshIds(page[..i], seen)
      invariant newContents == FreshTitles(page[..i], seen)
    {
      var item := page[i];
      var id := ExtractId(item.onclick);
      FreshStep(page, seen, i);
      if id.Some? && id.value !in seen {
        newNotifications := newNotifications + [id.value];
        newContents := newContents + [item.title];
      }
    }
    assert page[..|page|] == page;
  }

  /** The two lists are parallel: entry `k` of both comes from the `k`-th new
      item of the page; its id is a digit string that was not seen. */
  lemma FreshEntries(page: seq<Item>, seen: seq<string>)
    ensures var ix := NewIndices(page, seen);
            |FreshIds(page, seen)| == |FreshTitles(page, seen)| == |ix|
            && forall k :: 0 <= k < |ix| ==>
                 ExtractId(page[ix[k]].onclick) == Some(FreshIds(page, seen)[k])
                 && FreshTitles(page, seen)[k] == page[ix[k]].title
                 && IsDigits(FreshIds(page, seen)[k])
                 && FreshIds(page, seen)[k] !in seen
  {
  }

  /** An id is among the new ones exactly when some item of the page carries
      it and it was not seen. */
  lemma FreshMembership(page: seq<Item>, seen: seq<string>, x: string)
    ensures x in FreshIds(page, seen) <==>
            x !in seen && exists j :: 0 <= j < |page| && ExtractId(page[j].onclick) == Some(x)
  {
    var ids := FreshIds(page, seen);
    var ix := NewIndices(page, seen);
    if x in ids {
      var k :| 0 <= k < |ids| && ids[k] == x;
      assert ExtractId(page[ix[k]].onclick) == Some(x);
    }
    if x !in seen && exists j :: 0 <= j < |page| && ExtractId(page[j].onclick) == Some(x) {
      var j :| 0 <= j < |page| && ExtractId(page[j].onclick) == Some(x);
      assert IsNew(page[j], seen);
      var k :| 0 <= k < |ix| && ix[k] == j;
      assert ids[k] == x;
    }
  }

  /** The seen list is not updated inside the loop: an unseen id that two
      items carry is kept twice. */
  lemma DuplicatesKept(page: seq<Item>, seen: seq<string>, i: nat, j: nat)
    requires i < j < |page|
    requires IsNew(page[i], seen)
    requires ExtractId(page[j].onclick) == ExtractId(page[i].onclick)
    ensures exists k, l :: 0 <= k < l < |FreshIds(page, seen)|
                           && FreshIds(page, seen)[k] == FreshIds(page, seen)[l] == ExtractId(page[i].onclick).value
  {
    var ix := NewIndices(page, seen);
    var k :| 0 <= k < |ix| && ix[k] == i;
    var l :| 0 <= l < |ix| && ix[l] == j;
    assert FreshIds(page, seen)[k] == FreshIds(page, seen)[l];
  }

  lemma NoneNew(page: seq<Item>, seen: seq<string>)
    requires forall j :: 0 <= j < |page| ==> !IsNew(page[j], seen)
    ensures NewIndices(page, seen) == []
  {
    PositionsNone(NewFlags(page, seen));
  }

  lemma {:induction false} PositionsNone(flags: seq<bool>)
    requires forall j :: 0 <= j < |flags| ==> !flags[j]
    ensures Positions(flags) == []
    decreases |flags|
  {
    if flags != [] {
      PositionsNone(flags[..|flags| - 1]);
    }
  }

  /** Against a seen list that already holds the new ids, the same page has
      nothing new. */
  lemma NothingNewTwice(page: seq<Item>, seen: seq<string>)
    ensures FreshIds(page, seen + FreshIds(page, seen)) == []
    ensures FreshTitles(page, seen + FreshIds(page, seen)) == []
  {
    var seen' := seen + FreshIds(page, seen);
    forall j | 0 <= j < |page|
      ensures !IsNew(page[j], seen')
    {
      var id := ExtractId(page[j].onclick);
      if id.Some? && id.value !in seen {
        FreshMembership(page, seen, id.value);
      }
    }
    NoneNew(page, seen');
  }

  // ---------------------------------------------------------------- seen file

  /** The seen-id file after `getNotification`: rewritten with the old list
      followed by the new ids when there are any, and otherwise left as
      `readFromFile` left it (created empty if it was missing). */
  function SeenFileAfter(page: seq<Item>, file: Option<string>): (r: string)
    ensures var news := FreshIds(page, ReadFromFile(file).seen);
            |news| == 0 ==> r == (if file.Some? then file.value else "")
  {
    var loaded := ReadFromFile(file);
    var news := FreshIds(page, loaded.seen);
    if |news| > 0 then Serialise(loaded.seen + news) else loaded.file
  }

  /** The file as rewritten reads back as the old list followed by the new
      ids: the old list is a prefix of the new one, so the seen list never
      shrinks, and every new id is in it. */
  lemma SeenListGrows(page: seq<Item>, file: Option<string>)
    ensures var seen := ReadFromFile(file).seen;
            var news := FreshIds(page, seen);
            var seen' := ReadFromFile(Some(SeenFileAfter(page, file))).seen;
            seen' == seen + news && seen <= seen' && (forall x :: x in news ==> x in seen')
  {
    var seen := ReadFromFile(file).seen;
    var news := FreshIds(page, seen);
    if |news| == 0 {
      UnchangedFileRereads(file);
      assert seen + news == seen;
    } else {
      RewrittenFileRereads(file, news);
    }
  }

  lemma UnchangedFileRereads(file: Option<string>)
    ensures ReadFromFile(Some(ReadFromFile(file).file)).seen == ReadFromFile(file).seen
  {
    if file.None? {
      assert ParseSeen("") == DropEmpty([[]]) == [];
    }
  }

  lemma RewrittenFileRereads(file: Option<string>, news: seq<string>)
    requires forall k :: 0 <= k < |news| ==> IsDigits(news[k])
    ensures var seen := ReadFromFile(file).seen;
            ParseSeen(Serialise(seen + news)) == seen + news
  {
    var seen := ReadFromFile(file).seen;
    if file.Some? {
      ParseIsWellFormed(file.value);
    }
    DigitIdsAreWellFormed(news);
    WellFormedAppend(seen, news);
    ParseSerialise(seen + news);
  }

  /** Re-reading the updated file and diffing the same page again finds
      nothing new. */
  lemma SecondPollFindsNothing(page: seq<Item>, file: Option<string>)
    ensures var seen' := ReadFromFile(Some(SeenFileAfter(page, file))).seen;
            FreshIds(page, seen') == [] && FreshTitles(page, seen') == []
  {
    SeenListGrows(page, file);
    NothingNewTwice(page, ReadFromFile(file).seen);
  }

  /** `getNotification` from the moment the list items are known: read the
      seen file, collect the new items, rewrite the file if any are new.
      Returns `[newContents, newNotifications]` and the file afterwards. */
  method GetNotification(page: seq<Item>, file: Option<string>)
    returns (newContents: seq<string>, newNotifications: seq<string>, fileAfter: string)
    ensures var seen := ReadFromFile(file).seen;
            newNotifications == FreshIds(page, seen) && newContents == FreshTitles(page, seen)
    ensures fileAfter == SeenFileAfter(page, file)
  {
    var loaded := ReadFromFile(file);
    newNotifications, newContents := CollectNew(page, loaded.seen);
    fileAfter := loaded.file;
    if |newNotifications| > 0 {
      var updated := loaded.seen + newNotifications;
      fileAfter := Serialise(updated);
    }
  }
}

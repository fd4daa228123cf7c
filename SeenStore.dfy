/** The file of already-delivered notification ids (`readed_noti.txt`): how
    its text is read into an id list (`readFromFile`) and how an id list is
    written back as text (`join('\n')`). The file itself is a value: `None`
    when it does not exist, `Some(text)` otherwise. */
module SeenStore {
  import opened Wrappers
  import opened Text

  const Newline := '\n'

  /** The characters `trim` removes in this model. */
  predicate IsSpace(c: char) {
    c == ' ' || c == '\t' || c == '\r' || c == '\n'
  }

  /** `s` with its leading white space removed. */
  function TrimStart(s: string): (r: string)
    ensures |r| <= |s| && r == s[|s| - |r|..]
    ensures forall k :: 0 <= k < |s| - |r| ==> IsSpace(s[k])
    ensures r == [] || !IsSpace(r[0])
    decreases |s|
  {
    if s != [] && IsSpace(s[0]) then TrimStart(s[1..]) else s
  }

  /** `s` with its trailing white space removed. */
  function TrimEnd(s: string): (r: string)
    ensures |r| <= |s| && r == s[..|r|]
    ensures forall k :: |r| <= k < |s| ==> IsSpace(s[k])
    ensures r == [] || !IsSpace(r[|r| - 1])
    decreases |s|
  {
    if s != [] && IsSpace(s[|s| - 1]) then TrimEnd(s[..|s| - 1]) else s
  }

  /** `s.trim()`: the text between the leading and the trailing white space. */
  function Trim(s: string): (r: string)
    ensures var i := |s| - |TrimStart(s)|;
              i + |r| <= |s| && r == s[i..i + |r|]
              && (forall k :: 0 <= k < i ==> IsSpace(s[k]))
              && (forall k :: i + |r| <= k < |s| ==> IsSpace(s[k]))
    ensures r == [] || (!IsSpace(r[0]) && !IsSpace(r[|r| - 1]))
  {
    var t := TrimStart(s);
    var r := TrimEnd(t);
    TrimMiddle(s, t, r);
    r
  }

  /** When `t` is `s` without its leading white space and `r` is `t` without
      its trailing white space, `r` is the middle slice of `s`. */
  lemma TrimMiddle(s: string, t: string, r: string)
    requires |t| <= |s| && t == s[|s| - |t|..]
    requires forall k :: 0 <= k < |s| - |t| ==> IsSpace(s[k])
    requires t == [] || !IsSpace(t[0])
    requires |r| <= |t| && r == t[..|r|]
    requires forall k :: |r| <= k < |t| ==> IsSpace(t[k])
    requires r == [] || !IsSpace(r[|r| - 1])
    ensures var i := |s| - |t|;
              i + |r| <= |s| && r == s[i..i + |r|]
              && (forall k :: 0 <= k < i ==> IsSpace(s[k]))
              && (forall k :: i + |r| <= k < |s| ==> IsSpace(s[k]))
    ensures r == [] || (!IsSpace(r[0]) && !IsSpace(r[|r| - 1]))
  {
    var i := |s| - |t|;
    forall k | i + |r| <= k < |s|
      ensures IsSpace(s[k])
    {
      assert s[k] == t[k - i];
    }
    if r != [] {
      assert r[0] == t[0];
    }
  }

  /** Text that starts and ends with a non-space is its own trim. */
  lemma TrimOfTrimmed(s: string)
    requires s == [] || (!IsSpace(s[0]) && !IsSpace(s[|s| - 1]))
    ensures Trim(s) == s
  {
  }

  /** `s.split(sep)`: the pieces between occurrences of `sep`, one more piece
      than there are separators; empty text gives one empty piece. */
  function Split(s: string, sep: char): (r: seq<string>)
    ensures |r| >= 1
    ensures forall k :: 0 <= k < |r| ==> sep !in r[k]
    decreases |s|
  {
    if s == [] then [[]]
    else
      var rest := Split(s[1..], sep);
      if s[0] == sep then [[]] + rest else [[s[0]] + rest[0]] + rest[1..]
  }

  /** `xs.join(sep)`. */
  function Join(xs: seq<string>, sep: char): string
    decreases |xs|
  {
    if |xs| == 0 then []
    else if |xs| == 1 then xs[0]
    else xs[0] + [sep] + Join(xs[1..], sep)
  }

  /** `xs.filter(Boolean)` on strings: the non-empty ones, in order. */
  function DropEmpty(xs: seq<string>): (r: seq<string>)
    ensures forall k :: 0 <= k < |r| ==> r[k] != []
    ensures forall x :: x in r <==> x in xs && x != []
    decreases |xs|
  {
    if xs == [] then []
    else if xs[0] == [] then DropEmpty(xs[1..])
    else [xs[0]] + DropEmpty(xs[1..])
  }

  /** `data.trim().split('\n').filter(Boolean)`. */
  function ParseSeen(data: string): (ids: seq<string>)
    ensures forall k :: 0 <= k < |ids| ==> ids[k] != [] && Newline !in ids[k]
  {
    var pieces := Split(Trim(data), Newline);
    var ids := DropEmpty(pieces);
    assert forall k :: 0 <= k < |ids| ==> ids[k] in pieces;
    ids
  }

  /** `ids.join('\n')`: the text the file is rewritten with. */
  function Serialise(ids: seq<string>): string {
    Join(ids, Newline)
  }

  /** What `readFromFile` returns, and the file as it is afterwards. */
  datatype Loaded = Loaded(seen: seq<string>, file: string)

  /** `readFromFile`: a file that exists is parsed and left as it is; a missing
      file reads as the empty list and is created empty. */
  function ReadFromFile(file: Option<string>): (r: Loaded)
    ensures file.None? ==> r.seen == [] && r.file == ""
    ensures file.Some? ==> r.seen == ParseSeen(file.value) && r.file == file.value
    ensures forall k :: 0 <= k < |r.seen| ==> r.seen[k] != []
  {
    match file
    case None => Loaded([], "")
    case Some(data) => Loaded(ParseSeen(data), data)
  }

  /** The id lists the file format carries without change: every id is
      non-empty and holds no newline, and the whole list neither starts nor
      ends with white space (which `trim` would remove). */
  ghost predicate WellFormed(ids: seq<string>) {
    (forall k :: 0 <= k < |ids| ==> ids[k] != [] && Newline !in ids[k])
    && (|ids| > 0 ==> !IsSpace(ids[0][0]) && !IsSpace(ids[|ids| - 1][|ids[|ids| - 1]| - 1]))
  }

  // ---------------------------------------------------------------- split/join

  lemma {:induction false} SplitAppend(x: string, t: string, sep: char)
    requires sep !in x
    ensures Split(x + t, sep) == [x + Split(t, sep)[0]] + Split(t, sep)[1..]
    decreases |x|
  {
    if x != [] {
      assert (x + t)[1..] == x[1..] + t;
      SplitAppend(x[1..], t, sep);
      assert [x[0]] + (x[1..] + Split(t, sep)[0]) == x + Split(t, sep)[0];
    } else {
      assert x + t == t;
      assert x + Split(t, sep)[0] == Split(t, sep)[0];
      assert Split(t, sep) == [Split(t, sep)[0]] + Split(t, sep)[1..];
    }
  }

  /** Splitting joined pieces that hold no separator gives the pieces back. */
  lemma {:induction false} SplitJoin(xs: seq<string>, sep: char)
    requires |xs| >= 1
    requires forall k :: 0 <= k < |xs| ==> sep !in xs[k]
    ensures Split(Join(xs, sep), sep) == xs
    decreases |xs|
  {
    if |xs| == 1 {
      SplitAppend(xs[0], [], sep);
      assert xs[0] + [] == xs[0];
    } else {
      var rest := Join(xs[1..], sep);
      SplitJoin(xs[1..], sep);
      SplitAppend(xs[0], [sep] + rest, sep);
      assert ([sep] + rest)[1..] == rest;
      assert xs[0] + ([sep] + rest) == xs[0] + [sep] + rest;
      assert xs[0] + [] == xs[0];
    }
  }

  /** Joining the pieces of a split gives the text back. */
  lemma {:induction false} JoinSplit(s: string, sep: char)
    ensures Join(Split(s, sep), sep) == s
    decreases |s|
  {
    if s != [] {
      var rest := Split(s[1..], sep);
      JoinSplit(s[1..], sep);
      if s[0] == sep {
        assert ([[]] + rest)[1..] == rest;
      } else {
        JoinHead([s[0]], rest, sep);
        assert ([s[0]] + rest[0]) == [s[0]] + rest[0];
      }
    }
  }

  lemma JoinHead(a: string, xs: seq<string>, sep: char)
    requires |xs| >= 1
    ensures Join([a + xs[0]] + xs[1..], sep) == a + Join(xs, sep)
  {
    var ys := [a + xs[0]] + xs[1..];
    if |xs| == 1 {
      assert ys == [a + xs[0]];
    } else {
      assert ys[1..] == xs[1..];
      assert Join(ys, sep) == ys[0] + [sep] + Join(ys[1..], sep);
      assert Join(xs, sep) == xs[0] + [sep] + Join(xs[1..], sep);
    }
  }

  lemma {:induction false} JoinLast(xs: seq<string>, sep: char)
    requires |xs| >= 2
    ensures Join(xs, sep) == Join(xs[..|xs| - 1], sep) + [sep] + xs[|xs| - 1]
    decreases |xs|
  {
    var init := xs[..|xs| - 1];
    assert Join(xs, sep) == xs[0] + [sep] + Join(xs[1..], sep);
    if |xs| == 2 {
      assert init == [xs[0]];
      assert xs[1..] == [xs[1]];
    } else {
      JoinLast(xs[1..], sep);
      assert xs[1..][..|xs| - 2] == init[1..];
      assert Join(init, sep) == init[0] + [sep] + Join(init[1..], sep);
    }
  }

  lemma {:induction false} JoinEnds(xs: seq<string>, sep: char)
    requires |xs| >= 1 && xs[0] != [] && xs[|xs| - 1] != []
    ensures var s := Join(xs, sep);
              |s| > 0 && s[0] == xs[0][0] && s[|s| - 1] == xs[|xs| - 1][|xs[|xs| - 1]| - 1]
  {
    if |xs| >= 2 {
      JoinLast(xs, sep);
    }
  }

  // ---------------------------------------------------------------- filter

  lemma {:induction false} DropEmptyOfNonEmpty(xs: seq<string>)
    requires forall k :: 0 <= k < |xs| ==> xs[k] != []
    ensures DropEmpty(xs) == xs
    decreases |xs|
  {
    if xs != [] {
      DropEmptyOfNonEmpty(xs[1..]);
    }
  }

  /** `filter` on one string keeps it exactly when it is non-empty. */
  lemma DropEmptySingle(x: string)
    ensures DropEmpty([x]) == if x == [] then [] else [x]
  {
    assert [x][1..] == [];
  }

  /** `filter` works piece by piece: it keeps order and duplicates. */
  lemma {:induction false} DropEmptyAppend(a: seq<string>, b: seq<string>)
    ensures DropEmpty(a + b) == DropEmpty(a) + DropEmpty(b)
    decreases |a|
  {
    if a == [] {
      assert a + b == b;
    } else {
      assert (a + b)[0] == a[0];
      assert (a + b)[1..] == a[1..] + b;
      DropEmptyAppend(a[1..], b);
    }
  }

  lemma {:induction false} DropEmptyEnds(xs: seq<string>)
    requires |xs| >= 1 && xs[|xs| - 1] != []
    ensures var r := DropEmpty(xs);
              |r| >= 1 && r[|r| - 1] == xs[|xs| - 1] && (xs[0] != [] ==> r[0] == xs[0])
    decreases |xs|
  {
    if |xs| >= 2 {
      DropEmptyEnds(xs[1..]);
    }
  }

  // ---------------------------------------------------------------- file format

  /** Whatever the file holds, the list `readFromFile` makes of it is in the
      format the file carries without change. */
  lemma ParseIsWellFormed(data: string)
    ensures WellFormed(ParseSeen(data))
  {
    var t := Trim(data);
    var pieces := Split(t, Newline);
    assert ParseSeen(data) == DropEmpty(pieces);
    if t != [] {
      SplitEnds(t, Newline);
      DropEmptyEnds(pieces);
    }
  }

  /** Text that neither starts nor ends with the separator has a first piece
      that starts like the text and a last piece that ends like it. */
  lemma SplitEnds(t: string, sep: char)
    requires t != [] && t[0] != sep && t[|t| - 1] != sep
    ensures var pieces := Split(t, sep);
            var last := pieces[|pieces| - 1];
              pieces[0] != [] && pieces[0][0] == t[0]
              && last != [] && last[|last| - 1] == t[|t| - 1]
  {
    var pieces := Split(t, sep);
    assert pieces[0] == [t[0]] + Split(t[1..], sep)[0];
    SplitLast(t, sep);
  }

  /** The last piece of a split is a suffix of the text. */
  lemma SplitLast(t: string, sep: char)
    requires t != [] && t[|t| - 1] != sep
    ensures var pieces := Split(t, sep);
            var last := pieces[|pieces| - 1];
              last != [] && last[|last| - 1] == t[|t| - 1]
  {
    var pieces := Split(t, sep);
    JoinSplit(t, sep);
    if |pieces| >= 2 {
      JoinLast(pieces, sep);
      SuffixEnd(Join(pieces[..|pieces| - 1], sep), sep, pieces[|pieces| - 1], t);
    }
  }

  /** `t == front + [sep] + last`, with `t` not ending in `sep`: `last` is
      non-empty and ends like `t`. */
  lemma SuffixEnd(front: string, sep: char, last: string, t: string)
    requires t == front + [sep] + last && t[|t| - 1] != sep
    ensures last != [] && last[|last| - 1] == t[|t| - 1]
  {
  }

  /** A well-formed list written with `join('\n')` reads back as itself. */
  lemma ParseSerialise(ids: seq<string>)
    requires WellFormed(ids)
    ensures ParseSeen(Serialise(ids)) == ids
  {
    var text := Serialise(ids);
    if ids != [] {
      JoinEnds(ids, Newline);
      TrimOfTrimmed(text);
      SplitJoin(ids, Newline);
      DropEmptyOfNonEmpty(ids);
      assert Trim(text) == text;
      assert Split(text, Newline) == ids;
      assert ParseSeen(text) == DropEmpty(Split(text, Newline));
    } else {
      assert Trim(text) == [];
      assert DropEmpty([[]]) == DropEmpty([[]][1..]) == [];
    }
  }

  /** Rewriting the file with the list read from it changes nothing the next
      read sees. */
  lemma ReadWriteRead(data: string)
    ensures ParseSeen(Serialise(ParseSeen(data))) == ParseSeen(data)
  {
    ParseIsWellFormed(data);
    ParseSerialise(ParseSeen(data));
  }

  /** Lists of notification ids (non-empty digit strings) are well formed. */
  lemma DigitIdsAreWellFormed(ids: seq<string>)
    requires forall k :: 0 <= k < |ids| ==> IsDigits(ids[k])
    ensures WellFormed(ids)
  {
  }

  /** For non-empty digit-only ids, parsing `ids.join('\n')` gives the ids. */
  lemma DigitIdsRoundTrip(ids: seq<string>)
    requires forall k :: 0 <= k < |ids| ==> IsDigits(ids[k])
    ensures ParseSeen(Serialise(ids)) == ids
  {
    DigitIdsAreWellFormed(ids);
    ParseSerialise(ids);
  }

  /** The old list followed by new ids stays well formed when the new ids are
      well formed. */
  lemma WellFormedAppend(a: seq<string>, b: seq<string>)
    requires WellFormed(a) && WellFormed(b)
    ensures WellFormed(a + b)
  {
  }
}

/**
  The bookmark store: the text of bookmarks.csv and the three operations the
  program performs on it (append a record, load every record, remove the
  records of an alias). The file is read back with BufRead::lines.
*/
module BookmarkStore {
  import opened Results
  import opened TextLines
  import opened Codec

  /** Loading panics at the first line that does not decode; the index says which one. */
  datatype LoadError = MalformedRecord(line: nat)

  /** The start that marks a line as a record of this alias (line_pattern). */
  function Pattern(alias: string): (p: string)
    ensures |p| == |alias| + 1 && p[..|alias|] == alias && p[|alias|] == Delimiter
  {
    alias + [Delimiter]
  }

  /** The bookmarks of the lines in file order, or the first line that is not a record. */
  function DecodeAll(lines: seq<string>): (r: Result<seq<Bookmark>, LoadError>)
    ensures r.Ok? ==> |r.value| == |lines|
    ensures r.Err? ==> r.error.line < |lines|
    decreases |lines|
  {
    if lines == [] then Ok([])
    else
      var init, last := lines[..|lines| - 1], lines[|lines| - 1];
      match DecodeAll(init)
      case Err(e) => Err(e)
      case Ok(bs) =>
        match Decode(last)
        case Err(_) => Err(MalformedRecord(|init|))
        case Ok(b) => Ok(bs + [b])
  }

  /** What load_existing_bookmarks leaves in the vector: what it held, then the file's bookmarks. */
  function LoadInto(existing: seq<Bookmark>, lines: seq<string>): (r: Result<seq<Bookmark>, LoadError>)
    ensures r.Ok? ==> |r.value| == |existing| + |lines| && r.value[..|existing|] == existing
    ensures r.Err? ==> r.error.line < |lines|
  {
    match DecodeAll(lines)
    case Ok(bs) => Ok(existing + bs)
    case Err(e) => Err(e)
  }

  /** The lines remove_bookmark writes back: those that do not start with alias + ";", in order. */
  function KeepLines(lines: seq<string>, alias: string): (kept: seq<string>)
    ensures |kept| <= |lines|
    decreases |lines|
  {
    if lines == [] then []
    else
      var init, last := lines[..|lines| - 1], lines[|lines| - 1];
      KeepLines(init, alias) + (if Pattern(alias) <= last then [] else [last])
  }

  /** The bookmarks whose alias is not exactly the given one, in order. */
  function WithoutAlias(bs: seq<Bookmark>, alias: string): (r: seq<Bookmark>)
    ensures |r| <= |bs|
    decreases |bs|
  {
    if bs == [] then []
    else
      var init, last := bs[..|bs| - 1], bs[|bs| - 1];
      WithoutAlias(init, alias) + (if last.alias == alias then [] else [last])
  }

  /** The record lines of a list of bookmarks. */
  function Records(bs: seq<Bookmark>): (ls: seq<string>)
    ensures |ls| == |bs|
    ensures forall k :: 0 <= k < |bs| ==> ls[k] == Record(bs[k])
    decreases |bs|
  {
    if bs == [] then [] else Records(bs[..|bs| - 1]) + [Record(bs[|bs| - 1])]
  }

  /** The bookmarks file (bookmarks.csv) as the text it holds. */
  class Store {
    var text: string

    /** A store over a file that already holds the given text (created empty on first run). */
    constructor (contents: string)
      ensures text == contents
    {
      text := contents;
    }

    /** The lines BufRead::lines yields for the file. */
    function Lines(): seq<string>
      reads this
    {
      LinesOf(text)
    }

    /**
      add_bookmark: writes the record and its newline at the end of the file. When
      the file ends with a newline and the record is a plain line, that is exactly
      one more line after the others.
    */
    method Append(b: Bookmark)
      modifies this
      ensures text == old(text) + Encode(b)
      ensures Terminated(old(text)) && PlainLine(Record(b)) ==> Lines() == old(Lines()) + [Record(b)]
    {
      text := text + Encode(b);
      if Terminated(old(text)) && PlainLine(Record(b)) {
        LinesOfAppend(old(text), Encode(b));
        LinesOfLine(Record(b));
      }
    }

    /**
      load_existing_bookmarks: decodes every line in order and pushes it after the
      bookmarks already held; the first line without ';' aborts the whole load.
    */
    method Load(existing: seq<Bookmark>) returns (r: Result<seq<Bookmark>, LoadError>)
      ensures r == LoadInto(existing, Lines())
    {
      var lines := LinesOf(text);
      var bookmarks := existing;
      var i := 0;
      assert lines[..0] == [] && existing + [] == existing;
      while i < |lines|
        invariant 0 <= i <= |lines|
        invariant DecodeAll(lines[..i]).Ok?
        invariant bookmarks == existing + DecodeAll(lines[..i]).value
      {
        assert lines[..i + 1] == lines[..i] + [lines[i]];
        var d := Decode(lines[i]);
        if d.Err? {
          DecodeAllStopsAt(lines, i);
          return Err(MalformedRecord(i));
        }
        DecodeAllSnoc(lines[..i], lines[i]);
        bookmarks := bookmarks + [d.value];
        i := i + 1;
      }
      assert lines[..i] == lines;
      return Ok(bookmarks);
    }

    /**
      remove_bookmark: collects the lines that do not start with alias + ";", empties
      the file, and writes the collected lines back in order, each with a newline.
    */
    method Remove(alias: string)
      modifies this
      ensures text == JoinLines(KeepLines(old(Lines()), alias))
      ensures AllPlain(old(Lines())) ==> Lines() == KeepLines(old(Lines()), alias)
    {
      var lines := LinesOf(text);
      var pattern := Pattern(alias);
      var kept: seq<string> := [];
      for i := 0 to |lines|
        invariant kept == KeepLines(lines[..i], alias)
      {
        assert lines[..i + 1][..i] == lines[..i];
        if !(pattern <= lines[i]) {
          kept := kept + [lines[i]];
        }
      }
      assert lines[..|lines|] == lines;
      text := [];
      for j := 0 to |kept|
        invariant text == JoinLines(kept[..j])
      {
        assert kept[..j + 1][..j] == kept[..j];
        text := text + kept[j] + "\n";
      }
      assert kept[..|kept|] == kept;
      if AllPlain(lines) {
        KeepLinesPlain(lines, alias);
        LinesOfJoinLines(kept);
      }
    }
  }

  // Loading

  /** A load that has failed stays failed, at the same line, whatever lines follow. */
  lemma {:induction false} DecodeAllKeepsError(ls: seq<string>, ms: seq<string>)
    requires DecodeAll(ls).Err?
    ensures DecodeAll(ls + ms) == DecodeAll(ls)
    decreases |ms|
  {
    if ms == [] {
      assert ls + ms == ls;
    } else {
      var init := ms[..|ms| - 1];
      DecodeAllKeepsError(ls, init);
      assert (ls + ms)[..|ls + ms| - 1] == ls + init;
    }
  }

  /** If the lines before position i load and line i does not decode, the whole load fails there. */
  lemma {:induction false} DecodeAllStopsAt(ls: seq<string>, i: nat)
    requires i < |ls| && DecodeAll(ls[..i]).Ok? && Decode(ls[i]).Err?
    ensures DecodeAll(ls) == Err(MalformedRecord(i))
    decreases |ls|
  {
    var init := ls[..|ls| - 1];
    if |ls| == i + 1 {
      assert init == ls[..i];
    } else {
      assert init[..i] == ls[..i] && init[i] == ls[i];
      DecodeAllStopsAt(init, i);
    }
  }

  /** Loading after one more line decodes: the old bookmarks, then that line's bookmark. */
  lemma DecodeAllSnoc(ls: seq<string>, l: string)
    requires DecodeAll(ls).Ok? && Decode(l).Ok?
    ensures DecodeAll(ls + [l]) == Ok(DecodeAll(ls).value + [Decode(l).value])
  {
    assert (ls + [l])[..|ls|] == ls;
  }

  /** A load succeeds exactly when every line holds a ';'. */
  lemma {:induction false} DecodeAllOk(ls: seq<string>)
    ensures DecodeAll(ls).Ok? <==> forall k :: 0 <= k < |ls| ==> Delimiter in ls[k]
    decreases |ls|
  {
    if ls != [] {
      var init := ls[..|ls| - 1];
      DecodeAllOk(init);
      assert forall k :: 0 <= k < |init| ==> init[k] == ls[k];
    }
  }

  /** A successful load holds, at each position, the bookmark its line decodes to. */
  lemma {:induction false} DecodeAllValues(ls: seq<string>)
    requires DecodeAll(ls).Ok?
    ensures forall k :: 0 <= k < |ls| ==> Decode(ls[k]) == Ok(DecodeAll(ls).value[k])
    decreases |ls|
  {
    if ls != [] {
      var init := ls[..|ls| - 1];
      DecodeAllValues(init);
      assert forall k :: 0 <= k < |init| ==> init[k] == ls[k];
    }
  }

  /** A failed load names the first line without a ';'. */
  lemma {:induction false} DecodeAllFirstError(ls: seq<string>)
    requires DecodeAll(ls).Err?
    ensures Delimiter !in ls[DecodeAll(ls).error.line]
    ensures forall k :: 0 <= k < DecodeAll(ls).error.line ==> Delimiter in ls[k]
    decreases |ls|
  {
    var init := ls[..|ls| - 1];
    assert forall k :: 0 <= k < |init| ==> init[k] == ls[k];
    if DecodeAll(init).Err? {
      DecodeAllFirstError(init);
    } else {
      DecodeAllOk(init);
    }
  }

  /** Loading the lines of a file written by appends gives back the appended bookmarks, in order. */
  lemma {:induction false} LoadRecords(bs: seq<Bookmark>)
    requires forall b :: b in bs ==> Delimiter !in b.alias && Delimiter !in b.bookmarkType && Delimiter !in b.value
    ensures DecodeAll(Records(bs)) == Ok(bs)
    decreases |bs|
  {
    if bs != [] {
      var init, last := bs[..|bs| - 1], bs[|bs| - 1];
      assert bs == init + [last];
      LoadRecords(init);
      DecodeEncodeRoundTrip(last);
      assert Records(bs) == Records(init) + [Record(last)];
      DecodeAllSnoc(Records(init), Record(last));
    }
  }

  /** Append, then load: the bookmarks loaded before, then the appended one. */
  lemma LoadAfterAppend(t: string, b: Bookmark)
    requires Terminated(t) && PlainLine(Record(b))
    requires Delimiter !in b.alias && Delimiter !in b.bookmarkType && Delimiter !in b.value
    requires DecodeAll(LinesOf(t)).Ok?
    ensures DecodeAll(LinesOf(t + Encode(b))) == Ok(DecodeAll(LinesOf(t)).value + [b])
  {
    LinesOfAppend(t, Encode(b));
    LinesOfLine(Record(b));
    DecodeEncodeRoundTrip(b);
    DecodeAllSnoc(LinesOf(t), Record(b));
  }

  /** Appending one bookmark to an empty store and loading yields exactly that bookmark. */
  lemma AppendToEmptyThenLoad(b: Bookmark)
    requires PlainLine(Record(b))
    requires Delimiter !in b.alias && Delimiter !in b.bookmarkType && Delimiter !in b.value
    ensures LoadInto([], LinesOf(Encode(b))) == Ok([b])
  {
    LinesOfLine(Record(b));
    DecodeEncodeRoundTrip(b);
    var none: seq<string> := [];
    DecodeAllSnoc(none, Record(b));
    assert none + [Record(b)] == [Record(b)];
    assert Encode(b) == Record(b) + "\n";
    var nothing: seq<Bookmark> := [];
    assert nothing + [b] == [b];
  }

  /**
    Nothing stops a value from holding a newline. The record then ends the line early,
    the rest of the value becomes a line of its own, and when that rest has no ';'
    every later load stops at it.
  */
  lemma {:induction false} AppendNewlineInValue(t: string, alias: string, bookmarkType: string, v: string, w: string)
    requires Terminated(t) && DecodeAll(LinesOf(t)).Ok?
    requires PlainLine(Record(Bookmark(alias, bookmarkType, v))) && PlainLine(w) && Delimiter !in w
    ensures DecodeAll(LinesOf(t + Encode(Bookmark(alias, bookmarkType, v + "\n" + w))))
         == Err(MalformedRecord(|LinesOf(t)| + 1))
  {
    RecordHasDelimiter(Bookmark(alias, bookmarkType, v));
    DecodeAllSecondFails(LinesOf(t), Record(Bookmark(alias, bookmarkType, v)), w);
    LinesAfterNewlineInValue(t, Bookmark(alias, bookmarkType, v + "\n" + w), v, w);
  }

  /** The lines after appending a bookmark whose value is v + newline + w: the old ones, the record with value v, then w. */
  lemma LinesAfterNewlineInValue(t: string, b: Bookmark, v: string, w: string)
    requires Terminated(t)
    requires PlainLine(Record(Bookmark(b.alias, b.bookmarkType, v))) && PlainLine(w)
    requires b.value == v + "\n" + w
    ensures LinesOf(t + Encode(b)) == LinesOf(t) + [Record(Bookmark(b.alias, b.bookmarkType, v)), w]
  {
    var first := Record(Bookmark(b.alias, b.bookmarkType, v));
    var e := Encode(b);
    EncodeSplitValue(b, v, w);
    LinesOfTwo(first, w);
    LinesOfAppend(t, e);
  }

  /** The text written for a value v + newline + w: the record with value v, then w, each ending a line. */
  lemma EncodeSplitValue(b: Bookmark, v: string, w: string)
    requires b.value == v + "\n" + w
    ensures Encode(b) == (Record(Bookmark(b.alias, b.bookmarkType, v)) + "\n") + (w + "\n")
  {
  }

  /** Two plain lines, each with its newline, read back as those two lines. */
  lemma LinesOfTwo(l: string, m: string)
    requires PlainLine(l) && PlainLine(m)
    ensures LinesOf((l + "\n") + (m + "\n")) == [l, m]
  {
    LinesOfAppend(l + "\n", m + "\n");
    LinesOfLine(l);
    LinesOfLine(m);
  }

  /** A load that reaches a record and then a line with no ';' stops at that second line. */
  lemma DecodeAllSecondFails(before: seq<string>, first: string, w: string)
    requires DecodeAll(before).Ok? && Delimiter in first && Delimiter !in w
    ensures DecodeAll(before + [first, w]) == Err(MalformedRecord(|before| + 1))
  {
    var ls := before + [first, w];
    DecodeAllSnoc(before, first);
    assert ls[..|before| + 1] == before + [first] && ls[|before| + 1] == w;
    DecodeAllStopsAt(ls, |before| + 1);
  }

  // Removing

  /** One more line: kept unless it starts with the pattern. */
  lemma KeepLinesSnoc(ls: seq<string>, l: string, alias: string)
    ensures KeepLines(ls + [l], alias) == KeepLines(ls, alias) + (if Pattern(alias) <= l then [] else [l])
  {
    assert (ls + [l])[..|ls|] == ls;
  }

  /** One more bookmark: kept unless its alias is the given one. */
  lemma WithoutAliasSnoc(bs: seq<Bookmark>, b: Bookmark, alias: string)
    ensures WithoutAlias(bs + [b], alias) == WithoutAlias(bs, alias) + (if b.alias == alias then [] else [b])
  {
    assert (bs + [b])[..|bs|] == bs;
  }

  /** The kept lines are exactly the lines that do not start with alias + ";". */
  lemma {:induction false} KeepLinesMembers(ls: seq<string>, alias: string)
    ensures forall l :: l in KeepLines(ls, alias) <==> l in ls && !(Pattern(alias) <= l)
    decreases |ls|
  {
    if ls != [] {
      var init, last := ls[..|ls| - 1], ls[|ls| - 1];
      assert ls == init + [last];
      KeepLinesMembers(init, alias);
      KeepLinesSnoc(init, last, alias);
    }
  }

  /** The kept bookmarks are exactly those whose alias differs from the given one. */
  lemma {:induction false} WithoutAliasMembers(bs: seq<Bookmark>, alias: string)
    ensures forall b :: b in WithoutAlias(bs, alias) <==> b in bs && b.alias != alias
    decreases |bs|
  {
    if bs != [] {
      var init, last := bs[..|bs| - 1], bs[|bs| - 1];
      assert bs == init + [last];
      WithoutAliasMembers(init, alias);
      WithoutAliasSnoc(init, last, alias);
    }
  }

  /** Removal keeps only lines it was given, so plain lines stay plain. */
  lemma KeepLinesPlain(ls: seq<string>, alias: string)
    requires AllPlain(ls)
    ensures AllPlain(KeepLines(ls, alias))
  {
    KeepLinesMembers(ls, alias);
  }

  /** Removal works line by line: removing from two parts is removing from each. */
  lemma {:induction false} KeepLinesAppend(ls: seq<string>, ms: seq<string>, alias: string)
    ensures KeepLines(ls + ms, alias) == KeepLines(ls, alias) + KeepLines(ms, alias)
    decreases |ms|
  {
    if ms == [] {
      assert ls + ms == ls;
    } else {
      var init, last := ms[..|ms| - 1], ms[|ms| - 1];
      KeepLinesAppend(ls, init, alias);
      assert (ls + ms)[..|ls + ms| - 1] == ls + init;
      assert (ls + ms)[|ls + ms| - 1] == last;
    }
  }

  /** Removing an alias that no line starts with keeps every line. */
  lemma {:induction false} KeepLinesNoMatch(ls: seq<string>, alias: string)
    requires forall l :: l in ls ==> !(Pattern(alias) <= l)
    ensures KeepLines(ls, alias) == ls
    decreases |ls|
  {
    if ls != [] {
      var init, last := ls[..|ls| - 1], ls[|ls| - 1];
      assert ls == init + [last];
      assert last in ls;
      assert forall l :: l in init ==> l in ls;
      KeepLinesNoMatch(init, alias);
      KeepLinesSnoc(init, last, alias);
    }
  }

  /** Removing the same alias twice keeps the same lines as removing it once. */
  lemma KeepLinesIdempotent(ls: seq<string>, alias: string)
    ensures KeepLines(KeepLines(ls, alias), alias) == KeepLines(ls, alias)
  {
    KeepLinesMembers(ls, alias);
    KeepLinesNoMatch(KeepLines(ls, alias), alias);
  }

  /** For an alias without ';', removal keeps exactly the lines that do not decode with that alias. */
  lemma KeepLinesByAlias(ls: seq<string>, alias: string)
    requires Delimiter !in alias
    ensures forall l :: l in KeepLines(ls, alias) <==>
      l in ls && !(Decode(l).Ok? && Decode(l).value.alias == alias)
  {
    KeepLinesMembers(ls, alias);
    forall l | l in ls {
      StartsWithAliasField(l, alias);
    }
  }

  /** Removal matches whole alias fields, case-sensitively: a record of any other ';'-free alias is kept. */
  lemma KeepsOtherAlias(alias: string, b: Bookmark)
    requires Delimiter !in alias && Delimiter !in b.alias && b.alias != alias
    ensures KeepLines([Record(b)], alias) == [Record(b)]
  {
    RecordAlias(b);
    StartsWithAliasField(Record(b), alias);
    var none: seq<string> := [];
    KeepLinesSnoc(none, Record(b), alias);
    assert none + [Record(b)] == [Record(b)];
  }

  /** On a file of record lines, removal drops exactly the bookmarks whose alias is the given one. */
  lemma {:induction false} KeepRecords(bs: seq<Bookmark>, alias: string)
    requires Delimiter !in alias
    requires forall b :: b in bs ==> Delimiter !in b.alias
    ensures KeepLines(Records(bs), alias) == Records(WithoutAlias(bs, alias))
    decreases |bs|
  {
    if bs != [] {
      var init, last := bs[..|bs| - 1], bs[|bs| - 1];
      assert bs == init + [last];
      KeepRecords(init, alias);
      KeepRecordsStep(init, last, alias);
    }
  }

  /** The record lines of one more bookmark: one more line at the end. */
  lemma RecordsSnoc(bs: seq<Bookmark>, b: Bookmark)
    ensures Records(bs + [b]) == Records(bs) + [Record(b)]
  {
    assert (bs + [b])[..|bs|] == bs;
  }

  /** The inductive step of KeepRecords: one more bookmark at the end. */
  lemma KeepRecordsStep(init: seq<Bookmark>, last: Bookmark, alias: string)
    requires Delimiter !in alias && Delimiter !in last.alias
    requires KeepLines(Records(init), alias) == Records(WithoutAlias(init, alias))
    ensures KeepLines(Records(init + [last]), alias) == Records(WithoutAlias(init + [last], alias))
  {
    RecordsSnoc(init, last);
    KeepLinesSnoc(Records(init), Record(last), alias);
    WithoutAliasSnoc(init, last, alias);
    RecordAlias(last);
    StartsWithAliasField(Record(last), alias);
    if last.alias != alias {
      RecordsSnoc(WithoutAlias(init, alias), last);
    }
  }

  /** Remove, then load: the bookmarks loaded before, without those of that alias. */
  lemma {:induction false} LoadAfterRemove(ls: seq<string>, alias: string)
    requires Delimiter !in alias
    requires DecodeAll(ls).Ok?
    ensures DecodeAll(KeepLines(ls, alias)) == Ok(WithoutAlias(DecodeAll(ls).value, alias))
    decreases |ls|
  {
    if ls != [] {
      var init, last := ls[..|ls| - 1], ls[|ls| - 1];
      assert ls == init + [last];
      LoadAfterRemove(init, alias);
      LoadAfterRemoveStep(init, last, alias);
    }
  }

  /** The inductive step of LoadAfterRemove: one more line at the end. */
  lemma LoadAfterRemoveStep(init: seq<string>, last: string, alias: string)
    requires Delimiter !in alias
    requires DecodeAll(init + [last]).Ok?
    requires DecodeAll(KeepLines(init, alias)) == Ok(WithoutAlias(DecodeAll(init).value, alias))
    ensures DecodeAll(KeepLines(init + [last], alias)) == Ok(WithoutAlias(DecodeAll(init + [last]).value, alias))
  {
    var ls := init + [last];
    assert ls[..|ls| - 1] == init && ls[|ls| - 1] == last;
    var d := Decode(last).value;
    var before := DecodeAll(init).value;
    var kept := KeepLines(init, alias);
    var without := WithoutAlias(before, alias);
    assert DecodeAll(ls).value == before + [d];
    WithoutAliasSnoc(before, d, alias);
    KeepLinesSnoc(init, last, alias);
    StartsWithAliasField(last, alias);
    if Pattern(alias) <= last {
      assert KeepLines(ls, alias) == kept;
      assert WithoutAlias(before + [d], alias) == without;
    } else {
      assert KeepLines(ls, alias) == kept + [last];
      assert WithoutAlias(before + [d], alias) == without + [d];
      DecodeAllSnoc(kept, last);
    }
  }

  /** After remove_bookmark, the file holds no record of that alias, and nothing else changed. */
  lemma RemoveThenReload(t: string, alias: string)
    requires Delimiter !in alias
    requires AllPlain(LinesOf(t)) && DecodeAll(LinesOf(t)).Ok?
    ensures LinesOf(JoinLines(KeepLines(LinesOf(t), alias))) == KeepLines(LinesOf(t), alias)
    ensures DecodeAll(LinesOf(JoinLines(KeepLines(LinesOf(t), alias))))
         == Ok(WithoutAlias(DecodeAll(LinesOf(t)).value, alias))
  {
    KeepLinesPlain(LinesOf(t), alias);
    LinesOfJoinLines(KeepLines(LinesOf(t), alias));
    LoadAfterRemove(LinesOf(t), alias);
  }

  /** Running remove_bookmark twice with the same alias leaves the same file as running it once. */
  lemma RemoveTwice(t: string, alias: string)
    requires AllPlain(LinesOf(t))
    ensures JoinLines(KeepLines(LinesOf(JoinLines(KeepLines(LinesOf(t), alias))), alias))
         == JoinLines(KeepLines(LinesOf(t), alias))
  {
    KeepLinesPlain(LinesOf(t), alias);
    LinesOfJoinLines(KeepLines(LinesOf(t), alias));
    KeepLinesIdempotent(LinesOf(t), alias);
  }

  /**
    A file whose last line has no newline gets one on the rewrite, even when no
    line is removed: a single such line l becomes l and a newline.
  */
  lemma RemoveAddsFinalNewline(l: string, alias: string)
    requires l != [] && PlainLine(l) && !(Pattern(alias) <= l)
    ensures JoinLines(KeepLines(LinesOf(l), alias)) == l + "\n"
  {
    FirstIndexFound(l, '\n');
    assert LinesOf(l) == [l];
    var none: seq<string> := [];
    KeepLinesSnoc(none, l, alias);
    assert none + [l] == [l];
    assert [l][..0] == none;
  }

  /** remove_bookmark on a file this program wrote, for an alias no line has, rewrites the same text. */
  lemma RemoveNoMatch(ls: seq<string>, alias: string)
    requires AllPlain(ls)
    requires forall l :: l in ls ==> !(Pattern(alias) <= l)
    ensures JoinLines(KeepLines(LinesOf(JoinLines(ls)), alias)) == JoinLines(ls)
  {
    LinesOfJoinLines(ls);
    KeepLinesNoMatch(ls, alias);
  }
}

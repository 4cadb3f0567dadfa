/**
  The one-line record format of the bookmark file: alias, type and value
  separated by ';', with no quoting or escaping.
*/
module Codec {
  import opened Results
  import opened TextLines

  /** The field separator of a record line. */
  const Delimiter: char := ';'

  /** One saved bookmark (the Bookmark struct). */
  datatype Bookmark = Bookmark(alias: string, bookmarkType: string, value: string)

  /** Why a line is not a record: split gave no second segment, so the second unwrap panics. */
  datatype DecodeError = MissingType

  /** The record line of a bookmark, without its newline. */
  function Record(b: Bookmark): (r: string)
    ensures |r| == |b.alias| + |b.bookmarkType| + |b.value| + 2
  {
    b.alias + [Delimiter] + b.bookmarkType + [Delimiter] + b.value
  }

  /** The text add_bookmark writes to the end of the file. */
  function Encode(b: Bookmark): (e: string)
    ensures |e| > 0 && e[|e| - 1] == '\n' && e[..|e| - 1] == Record(b)
  {
    Record(b) + "\n"
  }

  /**
    Decodes one line as load_existing_bookmarks does: split at ';', the first
    segment is the alias, the second the type, and all further segments joined
    with "" are the value.
  */
  function Decode(line: string): (r: Result<Bookmark, DecodeError>)
    ensures r.Err? <==> Delimiter !in line
    ensures r.Ok? ==> Delimiter !in r.value.alias && Delimiter !in r.value.bookmarkType
    ensures r.Ok? ==> Delimiter !in r.value.value
    ensures r.Ok? ==> r.value.alias + [Delimiter] <= line
  {
    var parts := Split(line, Delimiter);
    SplitSingle(line, Delimiter);
    if |parts| < 2 then Err(MissingType)
    else
      ConcatAbsent(parts[2..], Delimiter);
      FirstIndexFound(line, Delimiter);
      SplitAt(line, Delimiter);
      AroundFirst(line, Delimiter);
      Ok(Bookmark(parts[0], parts[1], Concat(parts[2..])))
  }

  /** The record line is the alias, ';', the type, ';' and the value, at these positions. */
  lemma RecordLayout(b: Bookmark)
    ensures var r, i, j := Record(b), |b.alias|, |b.alias| + 1 + |b.bookmarkType|;
      |r| == |b.alias| + |b.bookmarkType| + |b.value| + 2
      && r[..i] == b.alias && r[i] == Delimiter
      && r[i + 1..j] == b.bookmarkType && r[j] == Delimiter
      && r[j + 1..] == b.value
  {
  }

  /** Every record line holds a ';', so it decodes. */
  lemma RecordHasDelimiter(b: Bookmark)
    ensures Delimiter in Record(b)
  {
    RecordLayout(b);
    assert Record(b)[|b.alias|] == Delimiter;
  }

  /** Decoding a record whose alias and type hold no ';' gives them back and the value without its ';'s. */
  lemma DecodeRecord(b: Bookmark)
    requires Delimiter !in b.alias && Delimiter !in b.bookmarkType
    ensures Decode(Record(b)) == Ok(Bookmark(b.alias, b.bookmarkType, RemoveAll(b.value, Delimiter)))
  {
    var parts := Split(Record(b), Delimiter);
    assert parts == [b.alias, b.bookmarkType] + Split(b.value, Delimiter) by {
      var tail := b.bookmarkType + [Delimiter] + b.value;
      assert Record(b) == b.alias + [Delimiter] + tail;
      SplitAfter(b.alias, Delimiter, tail);
      SplitAfter(b.bookmarkType, Delimiter, b.value);
    }
    assert parts[2..] == Split(b.value, Delimiter);
    ConcatSplit(b.value, Delimiter);
  }

  /** Round trip: a bookmark with no ';' in any field decodes back from its record line. */
  lemma DecodeEncodeRoundTrip(b: Bookmark)
    requires Delimiter !in b.alias && Delimiter !in b.bookmarkType && Delimiter !in b.value
    ensures Decode(Record(b)) == Ok(b)
  {
    DecodeRecord(b);
    RemoveAllAbsent(b.value, Delimiter);
  }

  /** Every record line decodes; only the ';'s inside the value are lost. */
  lemma DecodeLossy(b: Bookmark)
    requires Delimiter !in b.alias && Delimiter !in b.bookmarkType
    ensures Decode(Record(b)).Ok?
    ensures Decode(Record(b)) == Ok(b) <==> Delimiter !in b.value
  {
    DecodeRecord(b);
    if Delimiter !in b.value {
      RemoveAllAbsent(b.value, Delimiter);
    }
  }

  /** A ';' inside the value is dropped: "a;path;x;y" decodes to alias "a", type "path", value "xy". */
  lemma DecodeJoinsValueSegments(alias: string, bookmarkType: string, x: string, y: string)
    requires Delimiter !in alias && Delimiter !in bookmarkType && Delimiter !in x && Delimiter !in y
    ensures Decode(alias + [Delimiter] + bookmarkType + [Delimiter] + x + [Delimiter] + y)
         == Ok(Bookmark(alias, bookmarkType, x + y))
  {
    var b := Bookmark(alias, bookmarkType, x + [Delimiter] + y);
    assert Record(b) == alias + [Delimiter] + bookmarkType + [Delimiter] + x + [Delimiter] + y;
    DecodeRecord(b);
    RemoveAllAround(x, Delimiter, y);
    RemoveAllAbsent(y, Delimiter);
  }

  /** A line with a single ';' decodes to the text before it, the text after it as the type, and an empty value. */
  lemma DecodeTwoSegments(alias: string, bookmarkType: string)
    requires Delimiter !in alias && Delimiter !in bookmarkType
    ensures Decode(alias + [Delimiter] + bookmarkType) == Ok(Bookmark(alias, bookmarkType, ""))
  {
    SplitAfter(alias, Delimiter, bookmarkType);
    FirstIndexFound(bookmarkType, Delimiter);
  }

  /** A record line decodes with the bookmark's alias when the alias holds no ';'. */
  lemma RecordAlias(b: Bookmark)
    requires Delimiter !in b.alias
    ensures Decode(Record(b)).Ok? && Decode(Record(b)).value.alias == b.alias
  {
    var tail := b.bookmarkType + [Delimiter] + b.value;
    assert Record(b) == b.alias + [Delimiter] + tail;
    SplitAfter(b.alias, Delimiter, tail);
  }

  /** A line that starts with a ';'-free alias and ';' is exactly a line that decodes with that alias. */
  lemma StartsWithAliasField(line: string, alias: string)
    requires Delimiter !in alias
    ensures alias + [Delimiter] <= line <==> Decode(line).Ok? && Decode(line).value.alias == alias
  {
    if alias + [Delimiter] <= line {
      var rest := line[|alias| + 1..];
      assert line == alias + [Delimiter] + rest;
      SplitAfter(alias, Delimiter, rest);
      assert Delimiter in line by {
        assert line[|alias|] == Delimiter;
      }
    }
  }
}

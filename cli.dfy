/**
  The decision main makes from the parsed command line, and one run of the
  program over the bookmarks file: load everything first, then act on the command.
*/
module Cli {
  import opened Results
  import opened TextLines
  import opened Codec
  import opened BookmarkStore
  import opened Jump

  /** The type every bookmark saved by "sp" gets. */
  const PathType: string := "path"

  /** What main does for one command line. */
  datatype Action =
    | AddBookmark(bookmark: Bookmark)
    | RemoveBookmark(alias: string)
    | OpenShell(alias: string)
    | ListBookmarks
    | MissingAlias(command: string)
    | UnknownCommand(command: string)

  /**
    The match on the command: "sp" saves a path bookmark for the alias (the given
    value, else the current directory), "d" removes the alias, "p" jumps to it,
    "l" lists; "sp", "d" and "p" without an alias only report the missing alias.
  */
  function Dispatch(command: string, alias: Option<string>, value: Option<string>, cwd: string): (r: Action)
    ensures r.AddBookmark? <==> command == "sp" && alias.Some?
    ensures r.AddBookmark? ==> r.bookmark.alias == alias.value && r.bookmark.bookmarkType == PathType
    ensures r.AddBookmark? && value.Some? ==> r.bookmark.value == value.value
    ensures r.AddBookmark? && value.None? ==> r.bookmark.value == cwd
    ensures r.RemoveBookmark? <==> command == "d" && alias.Some?
    ensures r.OpenShell? <==> command == "p" && alias.Some?
    ensures r.RemoveBookmark? || r.OpenShell? ==> r.alias == alias.value
    ensures r.ListBookmarks? <==> command == "l"
    ensures r.MissingAlias? <==> (command == "sp" || command == "d" || command == "p") && alias.None?
    ensures r.UnknownCommand? <==> command != "sp" && command != "d" && command != "p" && command != "l"
    ensures r.MissingAlias? || r.UnknownCommand? ==> r.command == command
  {
    match command
    case "sp" =>
      if alias.None? then MissingAlias(command)
      else if value.Some? then AddBookmark(Bookmark(alias.value, PathType, value.value))
      else AddBookmark(Bookmark(alias.value, PathType, cwd))
    case "d" =>
      if alias.None? then MissingAlias(command) else RemoveBookmark(alias.value)
    case "p" =>
      if alias.None? then MissingAlias(command) else OpenShell(alias.value)
    case "l" => ListBookmarks
    case _ => UnknownCommand(command)
  }

  /** The end of one run: aborted while loading, or the action taken with what was loaded and launched. */
  datatype Outcome =
    | Aborted(error: LoadError)
    | Completed(action: Action, bookmarks: seq<Bookmark>, launched: seq<string>)

  /**
    main after argument parsing: loads every bookmark (a malformed line aborts the
    run before any command is acted on), then performs the dispatched action on
    the file. "l" and the message-only actions leave the file as it was.
  */
  method Run(store: Store, command: string, alias: Option<string>, value: Option<string>, cwd: string)
    returns (o: Outcome)
    modifies store
    ensures LoadInto([], old(store.Lines())).Err? ==>
      o == Aborted(LoadInto([], old(store.Lines())).error) && store.text == old(store.text)
    ensures LoadInto([], old(store.Lines())).Ok? ==>
      o.Completed? && o.action == Dispatch(command, alias, value, cwd)
      && o.bookmarks == LoadInto([], old(store.Lines())).value
    ensures o.Completed? && o.action.AddBookmark? ==> store.text == old(store.text) + Encode(o.action.bookmark)
    ensures o.Completed? && o.action.RemoveBookmark? ==>
      store.text == JoinLines(KeepLines(old(store.Lines()), o.action.alias))
    ensures o.Completed? && !o.action.AddBookmark? && !o.action.RemoveBookmark? ==> store.text == old(store.text)
    ensures o.Completed? && o.action.OpenShell? ==>
      |o.launched| == |Matches(o.bookmarks, o.action.alias)|
      && forall k :: 0 <= k < |o.launched| ==> o.launched[k] == Matches(o.bookmarks, o.action.alias)[k].value
    ensures o.Completed? && !o.action.OpenShell? ==> o.launched == []
  {
    var loaded := store.Load([]);
    if loaded.Err? {
      return Aborted(loaded.error);
    }
    var action := Dispatch(command, alias, value, cwd);
    var launched: seq<string> := [];
    match action {
      case AddBookmark(b) => store.Append(b);
      case RemoveBookmark(a) => store.Remove(a);
      case OpenShell(a) => launched := OpenShellWithPath(loaded.value, a);
      case ListBookmarks =>
      case MissingAlias(_) =>
      case UnknownCommand(_) =>
    }
    o := Completed(action, loaded.value, launched);
  }

  /** Only "sp" looks at the value and the current directory. */
  lemma DispatchIgnoresValue(command: string, alias: Option<string>, v: Option<string>, w: Option<string>,
                             cwd: string, cwd2: string)
    requires command != "sp"
    ensures Dispatch(command, alias, v, cwd) == Dispatch(command, alias, w, cwd2)
  {
  }

  /**
    Saving with "sp", then jumping with "p" to the same alias in the next run:
    the saved bookmark is the last one launched, after the matches already there.
  */
  lemma SaveThenOpen(t: string, a: string, value: Option<string>, cwd: string)
    requires Terminated(t) && DecodeAll(LinesOf(t)).Ok?
    requires Dispatch("sp", Some(a), value, cwd).AddBookmark?
    requires var b := Dispatch("sp", Some(a), value, cwd).bookmark;
      PlainLine(Record(b)) && Delimiter !in b.alias && Delimiter !in b.value
    ensures var b := Dispatch("sp", Some(a), value, cwd).bookmark;
      DecodeAll(LinesOf(t + Encode(b))).Ok?
      && Matches(DecodeAll(LinesOf(t + Encode(b))).value, a) == Matches(DecodeAll(LinesOf(t)).value, a) + [b]
  {
    var b := Dispatch("sp", Some(a), value, cwd).bookmark;
    assert Delimiter !in PathType;
    LoadAfterAppend(t, b);
    MatchesSnoc(DecodeAll(LinesOf(t)).value, b, a);
    EqIgnoreAsciiCaseReflexive(a);
  }

  /**
    Deleting an alias with "d", then jumping to it with "p": what is still
    launched is every earlier match whose alias differs from it in ASCII case,
    in the order it had.
  */
  lemma DeleteThenOpen(t: string, a: string)
    requires Delimiter !in a
    requires AllPlain(LinesOf(t)) && DecodeAll(LinesOf(t)).Ok?
    ensures var after := LinesOf(JoinLines(KeepLines(LinesOf(t), a)));
      DecodeAll(after).Ok?
      && Matches(DecodeAll(after).value, a) == WithoutAlias(Matches(DecodeAll(LinesOf(t)).value, a), a)
    ensures var after := LinesOf(JoinLines(KeepLines(LinesOf(t), a)));
      forall b :: b in Matches(DecodeAll(after).value, a) <==>
        b in DecodeAll(LinesOf(t)).value && EqIgnoreAsciiCase(b.alias, a) && b.alias != a
  {
    RemoveThenReload(t, a);
    var before := DecodeAll(LinesOf(t)).value;
    MatchesWithoutAlias(before, a, a);
    WithoutAliasMembers(Matches(before, a), a);
    MatchesMembers(before, a);
  }

  /** Selecting matches and dropping an exact alias are independent filters: their order does not matter. */
  lemma {:induction false} MatchesWithoutAlias(bs: seq<Bookmark>, alias: string, target: string)
    ensures Matches(WithoutAlias(bs, alias), target) == WithoutAlias(Matches(bs, target), alias)
    decreases |bs|
  {
    if bs != [] {
      var init, last := bs[..|bs| - 1], bs[|bs| - 1];
      assert bs == init + [last];
      MatchesWithoutAlias(init, alias, target);
      WithoutAliasSnoc(init, last, alias);
      MatchesSnoc(init, last, target);
      var kept := WithoutAlias(init, alias);
      var found := Matches(init, target);
      if last.alias != alias {
        MatchesSnoc(kept, last, target);
      } else {
        assert WithoutAlias(bs, alias) == kept;
      }
      if EqIgnoreAsciiCase(last.alias, target) {
        WithoutAliasSnoc(found, last, alias);
      } else {
        assert Matches(bs, target) == found;
      }
    }
  }

  /** "d" is case-sensitive while "p" is not: a record of "x" survives "d X" yet "p X" launches it. */
  lemma CaseAsymmetry(b: Bookmark, target: string)
    requires Delimiter !in b.alias && Delimiter !in target
    requires EqIgnoreAsciiCase(b.alias, target) && b.alias != target
    ensures KeepLines([Record(b)], target) == [Record(b)]
    ensures Matches([b], target) == [b]
  {
    KeepsOtherAlias(target, b);
    var none: seq<Bookmark> := [];
    MatchesSnoc(none, b, target);
    assert none + [b] == [b];
  }
}

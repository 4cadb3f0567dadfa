/**
  The lookup behind the "p" command: every loaded bookmark whose alias equals
  the target ignoring ASCII case, in list order, and a terminal launch at the
  value of each.
*/
module Jump {
  import opened TextLines
  import opened Codec

  /** ASCII lower-casing of one character; every other character is unchanged. */
  function AsciiLower(c: char): (r: char)
    ensures 'A' <= c <= 'Z' ==> 'a' <= r <= 'z' && r as int - c as int == 32
    ensures !('A' <= c <= 'Z') ==> r == c
  {
    if 'A' <= c <= 'Z' then (c as int + 32) as char else c
  }

  /** The string with every ASCII letter lower-cased (str::to_ascii_lowercase). */
  function AsciiLowercase(s: string): (r: string)
    ensures |r| == |s|
    ensures forall i :: 0 <= i < |s| ==> r[i] == AsciiLower(s[i])
  {
    seq(|s|, i requires 0 <= i < |s| => AsciiLower(s[i]))
  }

  /** str::eq_ignore_ascii_case: same length and equal once ASCII letters are lower-cased. */
  predicate EqIgnoreAsciiCase(a: string, b: string): (r: bool)
    ensures r <==> AsciiLowercase(a) == AsciiLowercase(b)
  {
    assert |a| == |b| && AsciiLowercase(a) == AsciiLowercase(b) ==>
      forall i :: 0 <= i < |a| ==> AsciiLower(a[i]) == AsciiLowercase(a)[i] == AsciiLower(b[i]);
    |a| == |b| && forall i :: 0 <= i < |a| ==> AsciiLower(a[i]) == AsciiLower(b[i])
  }

  /** The bookmarks open_shell_with_path acts on, in list order. */
  function Matches(bookmarks: seq<Bookmark>, target: string): (r: seq<Bookmark>)
    ensures |r| <= |bookmarks|
    decreases |bookmarks|
  {
    if bookmarks == [] then []
    else
      var init, last := bookmarks[..|bookmarks| - 1], bookmarks[|bookmarks| - 1];
      Matches(init, target) + (if EqIgnoreAsciiCase(last.alias, target) then [last] else [])
  }

  /**
    open_shell_with_path: walks the bookmarks in order and launches a terminal at
    the value of each one that matches. The launches are returned as the list of
    values, one per match, in order.
  */
  method OpenShellWithPath(bookmarks: seq<Bookmark>, target: string) returns (launched: seq<string>)
    ensures |launched| == |Matches(bookmarks, target)|
    ensures forall k :: 0 <= k < |launched| ==> launched[k] == Matches(bookmarks, target)[k].value
  {
    launched := [];
    for i := 0 to |bookmarks|
      invariant |launched| == |Matches(bookmarks[..i], target)|
      invariant forall k :: 0 <= k < |launched| ==> launched[k] == Matches(bookmarks[..i], target)[k].value
    {
      MatchesSnoc(bookmarks[..i], bookmarks[i], target);
      assert bookmarks[..i + 1] == bookmarks[..i] + [bookmarks[i]];
      if EqIgnoreAsciiCase(bookmarks[i].alias, target) {
        launched := launched + [bookmarks[i].value];
      }
    }
    assert bookmarks[..|bookmarks|] == bookmarks;
  }

  // Case folding

  /** Every string matches itself. */
  lemma EqIgnoreAsciiCaseReflexive(a: string)
    ensures EqIgnoreAsciiCase(a, a)
  {
  }

  /** Matching ignoring case does not depend on the order of the two strings. */
  lemma EqIgnoreAsciiCaseSymmetric(a: string, b: string)
    ensures EqIgnoreAsciiCase(a, b) <==> EqIgnoreAsciiCase(b, a)
  {
  }

  /** Two strings that each match a third match each other. */
  lemma EqIgnoreAsciiCaseTransitive(a: string, b: string, c: string)
    requires EqIgnoreAsciiCase(a, b) && EqIgnoreAsciiCase(b, c)
    ensures EqIgnoreAsciiCase(a, c)
  {
    forall i | 0 <= i < |a|
      ensures AsciiLower(a[i]) == AsciiLower(c[i])
    {
      assert AsciiLower(a[i]) == AsciiLower(b[i]);
    }
  }

  // Matching

  /** One more bookmark at the end: it is one more match at the end exactly when its alias matches. */
  lemma MatchesSnoc(bs: seq<Bookmark>, b: Bookmark, target: string)
    ensures Matches(bs + [b], target)
         == Matches(bs, target) + (if EqIgnoreAsciiCase(b.alias, target) then [b] else [])
  {
    assert (bs + [b])[..|bs|] == bs;
  }

  /** The matches of a list are exactly its bookmarks whose alias equals the target ignoring ASCII case. */
  lemma {:induction false} MatchesMembers(bs: seq<Bookmark>, target: string)
    ensures forall b :: b in Matches(bs, target) <==> b in bs && EqIgnoreAsciiCase(b.alias, target)
    decreases |bs|
  {
    if bs != [] {
      var init, last := bs[..|bs| - 1], bs[|bs| - 1];
      assert bs == init + [last];
      MatchesMembers(init, target);
      MatchesSnoc(init, last, target);
    }
  }

  /** Matching keeps list order: the matches of two parts are the matches of each, in turn. */
  lemma {:induction false} MatchesAppend(bs: seq<Bookmark>, cs: seq<Bookmark>, target: string)
    ensures Matches(bs + cs, target) == Matches(bs, target) + Matches(cs, target)
    decreases |cs|
  {
    if cs == [] {
      assert bs + cs == bs;
    } else {
      var init, last := cs[..|cs| - 1], cs[|cs| - 1];
      assert cs == init + [last];
      assert bs + cs == (bs + init) + [last];
      MatchesAppend(bs, init, target);
      MatchesSnoc(bs + init, last, target);
      MatchesSnoc(init, last, target);
    }
  }

  /** Targets that differ only in ASCII case select the same bookmarks. */
  lemma {:induction false} MatchesIgnoreTargetCase(bs: seq<Bookmark>, t: string, u: string)
    requires EqIgnoreAsciiCase(t, u)
    ensures Matches(bs, t) == Matches(bs, u)
    decreases |bs|
  {
    if bs != [] {
      var init, last := bs[..|bs| - 1], bs[|bs| - 1];
      MatchesIgnoreTargetCase(init, t, u);
      if EqIgnoreAsciiCase(last.alias, t) {
        EqIgnoreAsciiCaseTransitive(last.alias, t, u);
      }
      if EqIgnoreAsciiCase(last.alias, u) {
        EqIgnoreAsciiCaseSymmetric(t, u);
        EqIgnoreAsciiCaseTransitive(last.alias, u, t);
      }
    }
  }
}

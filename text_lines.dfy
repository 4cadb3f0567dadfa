/**
  The string operations the bookmark store is built from: str::split on one
  character, joining segments, BufRead::lines over the file's text, and the
  writeln rewrite of a list of lines. Strings are sequences of characters.
*/
module TextLines {

  /** Index of the first occurrence of c in s, or |s| when c does not occur. */
  function FirstIndex(s: string, c: char): (i: nat)
    ensures i <= |s|
    ensures i < |s| ==> s[i] == c
    decreases |s|
  {
    if s == [] then 0 else if s[0] == c then 0 else 1 + FirstIndex(s[1..], c)
  }

  /** No occurrence of c comes before FirstIndex(s, c). */
  lemma {:induction false} FirstIndexMinimal(s: string, c: char)
    ensures c !in s[..FirstIndex(s, c)]
    decreases |s|
  {
    if s != [] && s[0] != c {
      FirstIndexMinimal(s[1..], c);
      assert s[..FirstIndex(s, c)] == [s[0]] + s[1..][..FirstIndex(s[1..], c)];
    }
  }

  /** The segments of s between occurrences of c, as str::split yields them. */
  function Split(s: string, c: char): (parts: seq<string>)
    ensures |parts| >= 1
    ensures forall k :: 0 <= k < |parts| ==> c !in parts[k]
    decreases |s|
  {
    var i := FirstIndex(s, c);
    FirstIndexFound(s, c);
    FirstIndexMinimal(s, c);
    if i == |s| then [s]
    else [s[..i]] + Split(s[i + 1..], c)
  }

  /** The segments joined with c between neighbours (slice::join with a separator). */
  function JoinWith(parts: seq<string>, c: char): (r: string)
    requires |parts| >= 1
    ensures parts[0] <= r
    ensures |r| >= |parts| - 1
    ensures |parts| >= 2 ==> |r| > |parts[0]| && r[|parts[0]|] == c && JoinWith(parts[1..], c) <= r[|parts[0]| + 1..]
    decreases |parts|
  {
    if |parts| == 1 then parts[0] else parts[0] + [c] + JoinWith(parts[1..], c)
  }

  /** The segments joined with the empty separator (slice::join("")). */
  function Concat(parts: seq<string>): (r: string)
    ensures parts != [] ==> parts[0] <= r
    decreases |parts|
  {
    if parts == [] then [] else parts[0] + Concat(parts[1..])
  }

  /** s with every occurrence of c dropped. */
  function RemoveAll(s: string, c: char): (r: string)
    ensures c !in r
    ensures |r| <= |s|
    decreases |s|
  {
    if s == [] then [] else (if s[0] == c then [] else [s[0]]) + RemoveAll(s[1..], c)
  }

  /** A text read back line by line starts a new line after its last character. */
  predicate Terminated(t: string) {
    t == [] || t[|t| - 1] == '\n'
  }

  /** A line that reading back yields unchanged: no newline, and no carriage return at its end. */
  predicate PlainLine(l: string) {
    '\n' !in l && !(|l| > 0 && l[|l| - 1] == '\r')
  }

  /** Every line of ls is plain. */
  predicate AllPlain(ls: seq<string>) {
    forall l :: l in ls ==> PlainLine(l)
  }

  /** Drops the carriage return of a "\r\n" line ending. */
  function StripCr(l: string): (r: string)
    ensures r <= l
    ensures PlainLine(l) ==> r == l
  {
    if |l| > 0 && l[|l| - 1] == '\r' then l[..|l| - 1] else l
  }

  /**
    The lines of a text, as BufRead::lines yields them: the text is cut after
    every '\n', the '\n' and a '\r' just before it are dropped, and a final piece
    without '\n' is a line of its own if it is not empty.
  */
  function LinesOf(t: string): (ls: seq<string>)
    ensures forall k :: 0 <= k < |ls| ==> '\n' !in ls[k]
    decreases |t|
  {
    if t == [] then []
    else
      var i := FirstIndex(t, '\n');
      FirstIndexFound(t, '\n');
      FirstIndexMinimal(t, '\n');
      if i == |t| then [t]
      else [StripCr(t[..i])] + LinesOf(t[i + 1..])
  }

  /** The text that writing every line with writeln! produces. */
  function JoinLines(ls: seq<string>): (t: string)
    ensures Terminated(t)
    decreases |ls|
  {
    if ls == [] then [] else JoinLines(ls[..|ls| - 1]) + ls[|ls| - 1] + "\n"
  }

  // Splitting and joining

  /** FirstIndex finds an occurrence exactly when there is one. */
  lemma FirstIndexFound(s: string, c: char)
    ensures FirstIndex(s, c) < |s| <==> c in s
  {
    FirstIndexMinimal(s, c);
    if FirstIndex(s, c) == |s| {
      assert s[..|s|] == s;
    }
  }

  /** A split has a second segment exactly when the separator occurs. */
  lemma SplitSingle(s: string, c: char)
    ensures |Split(s, c)| == 1 <==> c !in s
  {
    FirstIndexFound(s, c);
  }

  /** The first occurrence of c in a + [c] + b is the one after a, when a has none. */
  lemma {:induction false} FirstIndexAfter(a: string, c: char, b: string)
    requires c !in a
    ensures FirstIndex(a + [c] + b, c) == |a|
    decreases |a|
  {
    if a == [] {
      assert a + [c] + b == [c] + b;
    } else {
      assert (a + [c] + b)[1..] == a[1..] + [c] + b;
      FirstIndexAfter(a[1..], c, b);
    }
  }

  /** Splitting at c a text that starts with a c-free field gives that field first. */
  lemma {:induction false} SplitAfter(a: string, c: char, b: string)
    requires c !in a
    ensures Split(a + [c] + b, c) == [a] + Split(b, c)
  {
    var s := a + [c] + b;
    FirstIndexAfter(a, c, b);
    assert s[..|a|] == a;
    assert s[|a| + 1..] == b;
  }

  /** Splitting undoes joining when no segment contains the separator. */
  lemma {:induction false} SplitJoinWith(parts: seq<string>, c: char)
    requires |parts| >= 1
    requires forall k :: 0 <= k < |parts| ==> c !in parts[k]
    ensures Split(JoinWith(parts, c), c) == parts
    decreases |parts|
  {
    if |parts| == 1 {
      FirstIndexFound(parts[0], c);
    } else {
      SplitJoinWith(parts[1..], c);
      SplitAfter(parts[0], c, JoinWith(parts[1..], c));
      assert parts == [parts[0]] + parts[1..];
    }
  }

  /** One step of Split: the segment before the first separator, then the split of the rest. */
  lemma SplitAt(s: string, c: char)
    requires FirstIndex(s, c) < |s|
    ensures Split(s, c) == [s[..FirstIndex(s, c)]] + Split(s[FirstIndex(s, c) + 1..], c)
  {
  }

  /** A text is the part before its first separator, the separator, and the rest. */
  lemma AroundFirst(s: string, c: char)
    requires FirstIndex(s, c) < |s|
    ensures s == s[..FirstIndex(s, c)] + [c] + s[FirstIndex(s, c) + 1..]
  {
  }

  lemma JoinWithCons(x: string, parts: seq<string>, c: char)
    requires |parts| >= 1
    ensures JoinWith([x] + parts, c) == x + [c] + JoinWith(parts, c)
  {
    assert ([x] + parts)[1..] == parts;
  }

  lemma ConcatCons(x: string, parts: seq<string>)
    ensures Concat([x] + parts) == x + Concat(parts)
  {
    assert ([x] + parts)[1..] == parts;
  }

  /** Joining the segments of a split with the separator gives the text back. */
  lemma {:induction false} JoinWithSplit(s: string, c: char)
    ensures JoinWith(Split(s, c), c) == s
    decreases |s|
  {
    var i := FirstIndex(s, c);
    if i < |s| {
      SplitAt(s, c);
      AroundFirst(s, c);
      JoinWithSplit(s[i + 1..], c);
      JoinWithCons(s[..i], Split(s[i + 1..], c), c);
    }
  }

  lemma {:induction false} RemoveAllAbsent(s: string, c: char)
    requires c !in s
    ensures RemoveAll(s, c) == s
    decreases |s|
  {
    if s != [] {
      RemoveAllAbsent(s[1..], c);
    }
  }

  /** Dropping c from a c-free field, a c and a rest keeps the field and drops c from the rest. */
  lemma {:induction false} RemoveAllAround(a: string, c: char, b: string)
    requires c !in a
    ensures RemoveAll(a + [c] + b, c) == a + RemoveAll(b, c)
    decreases |a|
  {
    if a == [] {
      assert a + [c] + b == [c] + b;
      assert ([c] + b)[1..] == b;
    } else {
      var s := a + [c] + b;
      assert s[0] == a[0] && s[1..] == a[1..] + [c] + b;
      RemoveAllAround(a[1..], c, b);
      ConsAssoc(a[0], a[1..], RemoveAll(b, c));
      assert [a[0]] + a[1..] == a;
    }
  }

  /** Joining the segments of a split with "" drops every separator and keeps the rest. */
  lemma {:induction false} ConcatSplit(s: string, c: char)
    ensures Concat(Split(s, c)) == RemoveAll(s, c)
    decreases |s|
  {
    var i := FirstIndex(s, c);
    if i == |s| {
      FirstIndexFound(s, c);
      RemoveAllAbsent(s, c);
    } else {
      SplitAt(s, c);
      AroundFirst(s, c);
      ConcatSplit(s[i + 1..], c);
      ConcatCons(s[..i], Split(s[i + 1..], c));
      RemoveAllAround(s[..i], c, s[i + 1..]);
    }
  }

  /** The empty join of c-free segments has no c. */
  lemma {:induction false} ConcatAbsent(parts: seq<string>, c: char)
    requires forall k :: 0 <= k < |parts| ==> c !in parts[k]
    ensures c !in Concat(parts)
    decreases |parts|
  {
    if parts != [] {
      ConcatAbsent(parts[1..], c);
    }
  }

  // Reading lines back

  /** One step of LinesOf: the line before the first newline, then the lines of the rest. */
  lemma LinesAt(t: string)
    requires FirstIndex(t, '\n') < |t|
    ensures LinesOf(t) == [StripCr(t[..FirstIndex(t, '\n')])] + LinesOf(t[FirstIndex(t, '\n') + 1..])
  {
  }

  /** Text after a prefix that already holds c does not move the first c. */
  lemma {:induction false} FirstIndexPrefix(t: string, u: string, c: char)
    requires FirstIndex(t, c) < |t|
    ensures FirstIndex(t + u, c) == FirstIndex(t, c)
    decreases |t|
  {
    assert (t + u)[0] == t[0];
    if t[0] != c {
      assert (t + u)[1..] == t[1..] + u;
      FirstIndexPrefix(t[1..], u, c);
    }
  }

  /** A non-empty newline-terminated text has a first newline, and what follows it is newline-terminated. */
  lemma TerminatedFirstLine(t: string)
    requires Terminated(t) && t != []
    ensures FirstIndex(t, '\n') < |t|
    ensures Terminated(t[FirstIndex(t, '\n') + 1..])
  {
    FirstIndexFound(t, '\n');
    assert t[|t| - 1] == '\n';
    var rest := t[FirstIndex(t, '\n') + 1..];
    if rest != [] {
      assert rest[|rest| - 1] == t[|t| - 1];
    }
  }

  /** The first line of t + u is that of t, when t holds a newline. */
  lemma LinesAtAppend(t: string, u: string)
    requires FirstIndex(t, '\n') < |t|
    ensures LinesOf(t + u) == [StripCr(t[..FirstIndex(t, '\n')])] + LinesOf(t[FirstIndex(t, '\n') + 1..] + u)
  {
    var i := FirstIndex(t, '\n');
    FirstIndexPrefix(t, u, '\n');
    LinesAt(t + u);
    assert (t + u)[..i] == t[..i];
    assert (t + u)[i + 1..] == t[i + 1..] + u;
  }

  lemma Assoc<T>(a: seq<T>, b: seq<T>, c: seq<T>)
    ensures (a + b) + c == a + (b + c)
  {
  }

  lemma ConsAssoc<T>(x: T, a: seq<T>, b: seq<T>)
    ensures [x] + (a + b) == ([x] + a) + b
  {
  }

  /** The inductive step of LinesOfAppend: the first line of t comes first in t + u. */
  lemma LinesOfAppendStep(t: string, u: string)
    requires FirstIndex(t, '\n') < |t|
    requires LinesOf(t[FirstIndex(t, '\n') + 1..] + u) == LinesOf(t[FirstIndex(t, '\n') + 1..]) + LinesOf(u)
    ensures LinesOf(t + u) == LinesOf(t) + LinesOf(u)
  {
    var i := FirstIndex(t, '\n');
    LinesAtAppend(t, u);
    LinesAt(t);
    ConsAssoc(StripCr(t[..i]), LinesOf(t[i + 1..]), LinesOf(u));
  }

  /** A newline-terminated text contributes its own lines, and then the rest follows. */
  lemma {:induction false} LinesOfAppend(t: string, u: string)
    requires Terminated(t)
    ensures LinesOf(t + u) == LinesOf(t) + LinesOf(u)
    decreases |t|
  {
    if t == [] {
      assert t + u == u;
    } else {
      TerminatedFirstLine(t);
      LinesOfAppend(t[FirstIndex(t, '\n') + 1..], u);
      LinesOfAppendStep(t, u);
    }
  }

  /** A plain line written with its newline reads back as exactly that line. */
  lemma LinesOfLine(l: string)
    requires PlainLine(l)
    ensures LinesOf(l + "\n") == [l]
  {
    var t := l + "\n";
    FirstIndexAfter(l, '\n', []);
    assert t == l + ['\n'] + [];
    assert t[..|l|] == l;
    assert t[|l| + 1..] == [];
  }

  /** Rewriting plain lines with writeln! and reading them back gives the same lines. */
  lemma {:induction false} LinesOfJoinLines(ls: seq<string>)
    requires AllPlain(ls)
    ensures LinesOf(JoinLines(ls)) == ls
    decreases |ls|
  {
    if ls != [] {
      var init, last := ls[..|ls| - 1], ls[|ls| - 1];
      assert ls == init + [last];
      LinesOfJoinLines(init);
      assert JoinLines(ls) == JoinLines(init) + (last + "\n") by {
        Assoc(JoinLines(init), last, "\n");
      }
      LinesOfAppend(JoinLines(init), last + "\n");
      LinesOfLine(last);
    }
  }
}

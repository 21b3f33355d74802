/** Python's `str.join` and `str.split` on a one-character separator, the
    way `spritea.sta` is written as its lines joined by newlines. */
module Text {

  /** No character of `s` is `c`. */
  predicate Free(s: string, c: char) {
    forall k :: 0 <= k < |s| ==> s[k] != c
  }

  /** `sep.join(parts)`: the parts with one separator between neighbours;
      the first part is a prefix of the result. */
  function Join(parts: seq<string>, sep: char): (r: string)
    ensures |parts| >= 1 ==> |parts[0]| <= |r| && r[..|parts[0]|] == parts[0]
  {
    if |parts| == 0 then ""
    else if |parts| == 1 then parts[0]
    else Join(parts[..|parts| - 1], sep) + [sep] + parts[|parts| - 1]
  }

  /** `s.split(sep)`: the pieces between separators, never an empty list. */
  function Split(s: string, sep: char): (r: seq<string>)
    ensures |r| >= 1
  {
    if s == [] then [""]
    else if s[|s| - 1] == sep then Split(s[..|s| - 1], sep) + [""]
    else Extend(Split(s[..|s| - 1], sep), [s[|s| - 1]])
  }

  /** `pieces` with `b` appended to its last piece. */
  function Extend(pieces: seq<string>, b: string): seq<string>
    requires |pieces| >= 1
  {
    pieces[..|pieces| - 1] + [pieces[|pieces| - 1] + b]
  }

  lemma ExtendNil(pieces: seq<string>)
    requires |pieces| >= 1
    ensures Extend(pieces, "") == pieces
  {
    assert pieces[|pieces| - 1] + "" == pieces[|pieces| - 1];
  }

  lemma ExtendTwice(pieces: seq<string>, b: string, c: string)
    requires |pieces| >= 1
    ensures Extend(Extend(pieces, b), c) == Extend(pieces, b + c)
  {
    var last := pieces[|pieces| - 1];
    assert (last + b) + c == last + (b + c);
  }

  /** Appending a non-separator extends the last piece. */
  lemma SplitSnoc(u: string, c: char, sep: char)
    requires c != sep
    ensures Split(u + [c], sep) == Extend(Split(u, sep), [c])
  {
    assert (u + [c])[..|u|] == u;
  }

  /** Appending separator-free text extends the last piece. */
  lemma {:induction false} SplitFree(t: string, b: string, sep: char)
    requires Free(b, sep)
    ensures Split(t + b, sep) == Extend(Split(t, sep), b)
    decreases |b|
  {
    if b == [] {
      ExtendNil(Split(t, sep));
      assert t + b == t;
    } else {
      var b', c := b[..|b| - 1], b[|b| - 1];
      assert (t + b') + [c] == t + b && b' + [c] == b;
      SplitFree(t, b', sep);
      SplitSnoc(t + b', c, sep);
      ExtendTwice(Split(t, sep), b', [c]);
    }
  }

  /** A separator closes the last piece and opens an empty one. */
  lemma SplitSep(t: string, sep: char)
    ensures Split(t + [sep], sep) == Split(t, sep) + [""]
  {
    assert (t + [sep])[..|t|] == t;
  }

  /** A separator followed by separator-free text adds that text as a piece. */
  lemma SplitSepThen(t: string, b: string, sep: char)
    requires Free(b, sep)
    ensures Split(t + [sep] + b, sep) == Split(t, sep) + [b]
  {
    SplitSep(t, sep);
    SplitFree(t + [sep], b, sep);
    var P := Split(t, sep);
    assert (P + [""])[..|P|] == P && "" + b == b;
  }

  lemma SplitOfFree(b: string, sep: char)
    requires Free(b, sep)
    ensures Split(b, sep) == [b]
  {
    SplitFree([], b, sep);
    assert [] + b == b && "" + b == b;
  }

  /** Splitting undoes joining when no part contains the separator. */
  lemma {:induction false} SplitJoin(parts: seq<string>, sep: char)
    requires |parts| >= 1
    requires forall k :: 0 <= k < |parts| ==> Free(parts[k], sep)
    ensures Split(Join(parts, sep), sep) == parts
  {
    var last := parts[|parts| - 1];
    if |parts| == 1 {
      SplitOfFree(last, sep);
    } else {
      var init := parts[..|parts| - 1];
      SplitJoin(init, sep);
      SplitSepThen(Join(init, sep), last, sep);
      assert init + [last] == parts;
    }
  }

  /** A join of parts free of `c` is free of `c` when `c` is not the separator. */
  lemma {:induction false} JoinFree(parts: seq<string>, sep: char, c: char)
    requires sep != c
    requires forall k :: 0 <= k < |parts| ==> Free(parts[k], c)
    ensures Free(Join(parts, sep), c)
  {
    if |parts| > 1 {
      JoinFree(parts[..|parts| - 1], sep, c);
    }
  }
}

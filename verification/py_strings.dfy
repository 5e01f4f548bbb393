/** Python's `str.split(sep)` and, for a non-empty list of pieces,
    `sep.join(parts)`, both for a one-character separator; and the
    top-level package name of a dotted module path, `origin.split('.')[0]`. */
module PyStrings {

  /** `s.split(sep)`: the pieces of `s` between separators, left to right.
      There is always at least one piece, no piece contains `sep`, and
      adjacent separators produce empty pieces (`"a..b"` gives
      `["a", "", "b"]`, `""` gives `[""]`). */
  function Split(s: string, sep: char): (parts: seq<string>)
    ensures |parts| >= 1
    ensures forall i :: 0 <= i < |parts| ==> sep !in parts[i]
    // the first piece is the longest separator-free prefix of `s`
    ensures parts[0] <= s
    ensures |parts[0]| == |s| || s[|parts[0]|] == sep
    decreases |s|
  {
    if s == [] then [[]]
    else
      var rest := Split(s[1..], sep);
      if s[0] == sep then [[]] + rest
      else [[s[0]] + rest[0]] + rest[1..]
  }

  /** `sep.join(parts)` for a non-empty list: the pieces with one separator
      between neighbours. */
  function Join(parts: seq<string>, sep: char): (s: string)
    requires |parts| >= 1
    decreases |parts|
  {
    if |parts| == 1 then parts[0]
    else parts[0] + [sep] + Join(parts[1..], sep)
  }

  /** Joining the pieces of a split gives back the original string. */
  lemma {:induction false} JoinSplit(s: string, sep: char)
    ensures Join(Split(s, sep), sep) == s
    decreases |s|
  {
    if s != [] {
      var rest := Split(s[1..], sep);
      JoinSplit(s[1..], sep);
      assert [s[0]] + s[1..] == s;
      if s[0] == sep {
        var parts := [[]] + rest;
        assert Split(s, sep) == parts;
        assert parts[0] == [] && parts[1..] == rest;
        assert Join(parts, sep) == [] + [sep] + Join(rest, sep);
      } else {
        var parts := [[s[0]] + rest[0]] + rest[1..];
        SplitOrdinaryHead(s, sep);
        assert Split(s, sep) == parts;
        if |rest| == 1 {
          assert Join(parts, sep) == [s[0]] + rest[0];
        } else {
          assert parts[0] == [s[0]] + rest[0] && parts[1..] == rest[1..];
          assert Join(rest, sep) == rest[0] + [sep] + Join(rest[1..], sep);
          assert Join(parts, sep) == [s[0]] + Join(rest, sep);
        }
      }
    }
  }

  /** One step of `Split` on a string that starts with an ordinary character. */
  lemma SplitOrdinaryHead(s: string, sep: char)
    requires s != [] && s[0] != sep
    ensures Split(s, sep) == [[s[0]] + Split(s[1..], sep)[0]] + Split(s[1..], sep)[1..]
  {
  }

  /** Splitting in front of a separator-free prefix `w` only lengthens the first piece. */
  lemma {:induction false} SplitSeparatorFreePrefix(w: string, t: string, sep: char)
    requires sep !in w
    ensures Split(w + t, sep) == [w + Split(t, sep)[0]] + Split(t, sep)[1..]
    decreases |w|
  {
    var pieces := Split(t, sep);
    if w == [] {
      assert w + t == t && w + pieces[0] == pieces[0];
      assert [pieces[0]] + pieces[1..] == pieces;
    } else {
      var s, tail := w + t, w[1..] + t;
      assert s[0] == w[0] && s[1..] == tail;
      SplitSeparatorFreePrefix(w[1..], t, sep);
      var rest := Split(tail, sep);
      assert rest[0] == w[1..] + pieces[0] && rest[1..] == pieces[1..];
      SplitOrdinaryHead(s, sep);
      assert [s[0]] + rest[0] == w + pieces[0];
    }
  }

  /** Splitting the join of separator-free pieces gives back the pieces. */
  lemma {:induction false} SplitJoin(parts: seq<string>, sep: char)
    requires |parts| >= 1
    requires forall i :: 0 <= i < |parts| ==> sep !in parts[i]
    ensures Split(Join(parts, sep), sep) == parts
    decreases |parts|
  {
    if |parts| == 1 {
      SplitSeparatorFreePrefix(parts[0], [], sep);
      assert parts[0] + [] == parts[0];
    } else {
      var tail := Join(parts[1..], sep);
      SplitJoin(parts[1..], sep);
      var t := [sep] + tail;
      assert t[1..] == tail;
      assert Split(t, sep) == [[]] + parts[1..];
      SplitSeparatorFreePrefix(parts[0], t, sep);
      assert parts[0] + t == Join(parts, sep);
      assert parts[0] + [] == parts[0];
      assert ([[]] + parts[1..])[1..] == parts[1..];
      assert [parts[0]] + parts[1..] == parts;
    }
  }

  /** The top-level package of a dotted module path, `origin.split('.')[0]`:
      the longest prefix of `origin` that contains no dot, so everything up
      to the first dot, or all of `origin` when it has none. */
  function TopLevel(origin: string): (pkg: string)
    ensures pkg <= origin
    ensures '.' !in pkg
    ensures |pkg| == |origin| || origin[|pkg|] == '.'
  {
    Split(origin, '.')[0]
  }

  /** The three properties in `TopLevel`'s contract single it out: no other
      dot-free prefix ends at a dot or at the end of the string. */
  lemma TopLevelUnique(origin: string, pkg: string)
    requires pkg <= origin
    requires '.' !in pkg
    requires |pkg| == |origin| || origin[|pkg|] == '.'
    ensures pkg == TopLevel(origin)
  {
  }

  /** A dot-free path is its own top-level package. */
  lemma TopLevelOfDotFree(origin: string)
    requires '.' !in origin
    ensures TopLevel(origin) == origin
  {
  }

  /** The top-level package of `pkg + "." + rest` is `pkg` whenever `pkg` has no dot. */
  lemma TopLevelOfDotted(pkg: string, rest: string)
    requires '.' !in pkg
    ensures TopLevel(pkg + "." + rest) == pkg
  {
    var origin := pkg + "." + rest;
    assert origin[|pkg|] == '.';
    assert pkg <= origin;
    TopLevelUnique(origin, pkg);
  }
}

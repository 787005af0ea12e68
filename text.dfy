/** Go's `strings.Split` with a one-character separator, and its inverse. */
module Text {
  import opened Common

  /** Concatenates `pieces`, putting `sep` between consecutive pieces (Go's `strings.Join`). */
  function Join(pieces: seq<string>, sep: char): string
  {
    if |pieces| == 0 then ""
    else if |pieces| == 1 then pieces[0]
    else pieces[0] + [sep] + Join(pieces[1..], sep)
  }

  /**
   * `strings.Split(s, sep)`: the maximal separator-free pieces of `s`, in order.
   * There is always at least one piece (`Split("", sep) == [""]`), the pieces
   * never contain the separator and joining them gives back `s`.
   */
  function Split(s: string, sep: char): (r: seq<string>)
    ensures |r| >= 1
    ensures forall i :: 0 <= i < |r| ==> AbsentFrom(sep, r[i])
    ensures Join(r, sep) == s
    decreases |s|
  {
    if |s| == 0 then [""]
    else
      var rest := Split(s[1..], sep);
      if s[0] == sep then
        assert "" + [sep] + Join(rest, sep) == s;
        [""] + rest
      else
        var r := [[s[0]] + rest[0]] + rest[1..];
        assert r[1..] == rest[1..];
        assert [s[0]] + Join(rest, sep) == s;
        assert forall i :: 1 <= i < |r| ==> r[i] == rest[i];
        r
  }

  /** Split undoes Join when no piece holds the separator. */
  lemma {:induction false} SplitJoin(pieces: seq<string>, sep: char)
    requires |pieces| >= 1
    requires forall i :: 0 <= i < |pieces| ==> AbsentFrom(sep, pieces[i])
    ensures Split(Join(pieces, sep), sep) == pieces
  {
    JoinDetermines(Split(Join(pieces, sep), sep), pieces, sep);
  }

  /** Two separator-free non-empty piece lists with the same join are equal. */
  lemma {:induction false} JoinDetermines(a: seq<string>, b: seq<string>, sep: char)
    requires |a| >= 1 && |b| >= 1
    requires forall i :: 0 <= i < |a| ==> AbsentFrom(sep, a[i])
    requires forall i :: 0 <= i < |b| ==> AbsentFrom(sep, b[i])
    requires Join(a, sep) == Join(b, sep)
    ensures a == b
    decreases |a| + |b|
  {
    if |a| == 1 && |b| == 1 {
    } else if |a| == 1 {
      JoinHasSep(b, sep);
    } else if |b| == 1 {
      JoinHasSep(a, sep);
    } else {
      var ja, jb := Join(a[1..], sep), Join(b[1..], sep);
      var s := Join(a, sep);
      assert s == a[0] + [sep] + ja;
      assert s == b[0] + [sep] + jb;
      FirstPieceUnique(a[0], ja, b[0], jb, sep);
      JoinDetermines(a[1..], b[1..], sep);
      assert a == [a[0]] + a[1..];
      assert b == [b[0]] + b[1..];
    }
  }

  /** The separator-free text before the first separator is determined. */
  lemma FirstPieceUnique(x: string, y: string, z: string, w: string, sep: char)
    requires AbsentFrom(sep, x) && AbsentFrom(sep, z)
    requires x + [sep] + y == z + [sep] + w
    ensures x == z && y == w
  {
    var s := x + [sep] + y;
    assert s[|x|] == sep && forall i :: 0 <= i < |x| ==> s[i] != sep;
    assert s[|z|] == sep && forall i :: 0 <= i < |z| ==> s[i] != sep;
    assert x == s[..|x|];
    assert z == s[..|z|];
    assert y == s[|x| + 1..];
    assert w == s[|z| + 1..];
  }

  /** Joining at least two pieces puts a separator right after the first piece. */
  lemma JoinHasSep(p: seq<string>, sep: char)
    requires |p| >= 2
    ensures |Join(p, sep)| > |p[0]| && Join(p, sep)[|p[0]|] == sep
  {
    assert Join(p, sep) == p[0] + [sep] + Join(p[1..], sep);
  }

  /** The number of occurrences of `c` in `s`. */
  function Count(c: char, s: string): nat
  {
    if |s| == 0 then 0 else (if s[0] == c then 1 else 0) + Count(c, s[1..])
  }

  /** The number of pieces is one more than the number of separators. */
  lemma {:induction false} SplitCount(s: string, sep: char)
    ensures |Split(s, sep)| == Count(sep, s) + 1
    decreases |s|
  {
    if |s| > 0 {
      SplitCount(s[1..], sep);
    }
  }
}

/** A model of Java's `String.split` for a one-character, non-regex separator,
    as `"g:n:v".split(":")` uses it.

    Java first cuts the string at every separator (the raw pieces), and then
    drops the trailing empty pieces. When the separator does not occur at all,
    it returns the whole string as the only element, so `"".split(":")` is
    `[""]` while `":".split(":")` is `[]`. */
module JavaStrings {

  /** `k` copies of `x`. */
  function Repeat<T>(x: T, k: nat): (r: seq<T>)
    ensures |r| == k
    ensures forall i :: 0 <= i < k ==> r[i] == x
  {
    if k == 0 then [] else Repeat(x, k - 1) + [x]
  }

  /** The pieces joined back together, one separator between neighbours. */
  function Join(ps: seq<string>, sep: char): string
    requires |ps| >= 1
    decreases |ps|
  {
    if |ps| == 1 then ps[0] else ps[0] + [sep] + Join(ps[1..], sep)
  }

  /** The raw pieces of `s`: the maximal separator-free stretches, including
      the empty ones between, before and after separators. */
  function Pieces(s: string, sep: char): (r: seq<string>)
    ensures |r| >= 1
    ensures forall i :: 0 <= i < |r| ==> sep !in r[i]
    ensures Join(r, sep) == s
    decreases |s|
  {
    if s == [] then [""]
    else if s[0] == sep then [""] + Pieces(s[1..], sep)
    else
      var rest := Pieces(s[1..], sep);
      [[s[0]] + rest[0]] + rest[1..]
  }

  /** `ps` without its trailing empty strings. */
  function DropTrailingEmpty(ps: seq<string>): (r: seq<string>)
    ensures |r| <= |ps| && r == ps[..|r|]
    ensures r == [] || r[|r| - 1] != ""
    ensures forall i :: |r| <= i < |ps| ==> ps[i] == ""
    decreases |ps|
  {
    if ps == [] then []
    else if ps[|ps| - 1] == "" then DropTrailingEmpty(ps[..|ps| - 1])
    else ps
  }

  /** Java `s.split(sep)` for a separator that is not a regex metacharacter. */
  function Split(s: string, sep: char): (r: seq<string>)
    ensures forall i :: 0 <= i < |r| ==> sep !in r[i]
  {
    if sep !in s then [s] else DropTrailingEmpty(Pieces(s, sep))
  }

  lemma {:induction false} PiecesOfFree(x: string, sep: char)
    requires sep !in x
    ensures Pieces(x, sep) == [x]
    decreases |x|
  {
    if x != [] {
      PiecesOfFree(x[1..], sep);
      assert [x[0]] + x[1..] == x;
    }
  }

  /** A separator right after a separator-free prefix cuts exactly there. */
  lemma {:induction false} PiecesOfSeparated(x: string, y: string, sep: char)
    requires sep !in x
    ensures Pieces(x + [sep] + y, sep) == [x] + Pieces(y, sep)
    decreases |x|
  {
    var s := x + [sep] + y;
    if x == [] {
      assert s[1..] == y;
    } else {
      assert s[1..] == x[1..] + [sep] + y;
      PiecesOfSeparated(x[1..], y, sep);
      assert [x[0]] + x[1..] == x;
    }
  }

  /** Cutting undoes joining: the pieces of a join of separator-free strings
      are those strings (the other half of the round trip is `Pieces`'s own
      ensures `Join(Pieces(s, sep), sep) == s`). */
  lemma {:induction false} PiecesOfJoin(ps: seq<string>, sep: char)
    requires |ps| >= 1
    requires forall i :: 0 <= i < |ps| ==> sep !in ps[i]
    ensures Pieces(Join(ps, sep), sep) == ps
    decreases |ps|
  {
    if |ps| == 1 {
      PiecesOfFree(ps[0], sep);
    } else {
      PiecesOfJoin(ps[1..], sep);
      PiecesOfSeparated(ps[0], Join(ps[1..], sep), sep);
      assert [ps[0]] + ps[1..] == ps;
    }
  }

  lemma {:induction false} JoinAppendEmpty(ps: seq<string>, sep: char)
    requires |ps| >= 1
    ensures Join(ps + [""], sep) == Join(ps, sep) + [sep]
    decreases |ps|
  {
    if |ps| == 1 {
      assert (ps + [""])[1..] == [""];
    } else {
      assert (ps + [""])[1..] == ps[1..] + [""];
      JoinAppendEmpty(ps[1..], sep);
    }
  }

  /** Trailing empty pieces are trailing separators. */
  lemma {:induction false} JoinTrailingEmpties(ps: seq<string>, sep: char, k: nat)
    requires |ps| >= 1
    ensures Join(ps + Repeat("", k), sep) == Join(ps, sep) + Repeat(sep, k)
    decreases k
  {
    if k == 0 {
      assert ps + Repeat("", 0) == ps;
    } else {
      JoinTrailingEmpties(ps, sep, k - 1);
      assert ps + Repeat("", k) == (ps + Repeat("", k - 1)) + [""];
      JoinAppendEmpty(ps + Repeat("", k - 1), sep);
    }
  }

  lemma {:induction false} DropTrailingEmpties(ps: seq<string>, k: nat)
    requires ps == [] || ps[|ps| - 1] != ""
    ensures DropTrailingEmpty(ps + Repeat("", k)) == ps
    decreases k
  {
    if k > 0 {
      assert (ps + Repeat("", k))[..|ps| + k - 1] == ps + Repeat("", k - 1);
      DropTrailingEmpties(ps, k - 1);
    } else {
      assert ps + Repeat("", 0) == ps;
    }
  }

  /** Java keeps interior empty pieces and drops trailing separators: a join
      of separator-free strings whose last one is non-empty, followed by any
      number of separators, splits back into exactly those strings. */
  lemma {:induction false} SplitOfJoin(ps: seq<string>, sep: char, k: nat)
    requires |ps| >= 1
    requires forall i :: 0 <= i < |ps| ==> sep !in ps[i]
    requires ps[|ps| - 1] != ""
    ensures Split(Join(ps, sep) + Repeat(sep, k), sep) == ps
  {
    var s := Join(ps, sep) + Repeat(sep, k);
    var qs := ps + Repeat("", k);
    JoinTrailingEmpties(ps, sep, k);
    assert forall i :: 0 <= i < |qs| ==> sep !in qs[i] by {
      forall i | 0 <= i < |qs| ensures sep !in qs[i] {
        if i >= |ps| { assert qs[i] == ""; }
      }
    }
    PiecesOfJoin(qs, sep);
    DropTrailingEmpties(ps, k);
    if sep !in s {
      assert Pieces(s, sep) == [s] by { PiecesOfFree(s, sep); }
    }
  }

  /** Conversely, a non-empty split result joins back to the string up to
      trailing separators, and its last element is non-empty unless the
      separator does not occur. */
  lemma SplitJoinsBack(s: string, sep: char)
    requires |Split(s, sep)| >= 1
    ensures exists k: nat :: s == Join(Split(s, sep), sep) + Repeat(sep, k)
    ensures sep in s ==> Split(s, sep)[|Split(s, sep)| - 1] != ""
  {
    var r := Split(s, sep);
    if sep !in s {
      assert s == Join(r, sep) + Repeat(sep, 0);
    } else {
      var ps := Pieces(s, sep);
      var k := |ps| - |r|;
      assert ps == r + Repeat("", k);
      JoinTrailingEmpties(r, sep, k);
      assert s == Join(r, sep) + Repeat(sep, k);
    }
  }
}

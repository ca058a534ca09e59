/** The comma-separated token stream ACCEPT reads each parameter through,
    taken as a plain split on ','. */
module CommaSep {

  /** The pieces of `s` between commas, in order; a string with k commas has
      k + 1 pieces, some of which may be empty. */
  function Split(s: string): (parts: seq<string>)
    ensures |parts| >= 1
    ensures forall i :: 0 <= i < |parts| ==> ',' !in parts[i]
    ensures |parts| == Commas(s) + 1
    decreases |s|
  {
    if s == [] then [""]
    else
      var rest := Split(s[1..]);
      if s[0] == ',' then [""] + rest
      else [[s[0]] + rest[0]] + rest[1..]
  }

  /** The number of commas in `s`. */
  function Commas(s: string): nat
  {
    if s == [] then 0 else (if s[0] == ',' then 1 else 0) + Commas(s[1..])
  }

  /** The pieces rejoined with ',' between neighbours. */
  function Join(parts: seq<string>): string
    requires |parts| >= 1
    decreases |parts|
  {
    if |parts| == 1 then parts[0] else parts[0] + "," + Join(parts[1..])
  }

  /** Splitting loses nothing: the pieces rejoin to the original string. */
  lemma {:induction false} JoinSplit(s: string)
    ensures Join(Split(s)) == s
    decreases |s|
  {
    if s != [] {
      var rest := Split(s[1..]);
      JoinSplit(s[1..]);
      if s[0] == ',' {
        assert Split(s) == [""] + rest;
        assert (Split(s))[1..] == rest;
      } else {
        var parts := Split(s);
        assert parts == [[s[0]] + rest[0]] + rest[1..];
        if |rest| == 1 {
          assert parts == [[s[0]] + rest[0]];
        } else {
          assert parts[1..] == rest[1..];
          assert Join(rest) == rest[0] + "," + Join(rest[1..]);
        }
      }
    }
  }

  /** Splitting a comma-free string gives it back whole. */
  lemma {:induction false} SplitNoComma(p: string)
    requires ',' !in p
    ensures Split(p) == [p]
    decreases |p|
  {
    if p != [] {
      assert ',' !in p[1..] by {
        forall k | 0 <= k < |p| - 1 ensures p[1..][k] != ',' { assert p[1..][k] == p[k + 1]; }
      }
      SplitNoComma(p[1..]);
      assert [p[0]] + p[1..] == p;
    }
  }

  /** The first piece of `p + "," + s` is `p` when `p` has no comma, and the
      rest are the pieces of `s`. */
  lemma {:induction false} SplitAfterPiece(p: string, s: string)
    requires ',' !in p
    ensures Split(p + "," + s) == [p] + Split(s)
    decreases |p|
  {
    if p == [] {
      assert p + "," + s == [','] + s;
      assert (p + "," + s)[1..] == s;
    } else {
      var t := p + "," + s;
      assert t[0] == p[0];
      assert t[1..] == p[1..] + "," + s;
      assert ',' !in p[1..] by {
        forall k | 0 <= k < |p| - 1 ensures p[1..][k] != ',' { assert p[1..][k] == p[k + 1]; }
      }
      SplitAfterPiece(p[1..], s);
      assert [p[0]] + p[1..] == p;
    }
  }

  /** Joining comma-free pieces and splitting again gives the pieces back. */
  lemma {:induction false} SplitJoin(parts: seq<string>)
    requires |parts| >= 1
    requires forall i :: 0 <= i < |parts| ==> ',' !in parts[i]
    ensures Split(Join(parts)) == parts
    decreases |parts|
  {
    if |parts| == 1 {
      SplitNoComma(parts[0]);
    } else {
      SplitJoin(parts[1..]);
      SplitAfterPiece(parts[0], Join(parts[1..]));
      assert [parts[0]] + parts[1..] == parts;
    }
  }
}

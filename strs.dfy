/** The few string operations the modelled code relies on. */
module Strs {
  /** `s.startswith(prefix)`. */
  predicate StartsWith(s: string, prefix: string)
  {
    |prefix| <= |s| && s[..|prefix|] == prefix
  }

  /** `sep.join(parts)`. */
  function Join(parts: seq<string>, sep: string): (r: string)
    ensures parts == [] ==> r == ""
    ensures |parts| == 1 ==> r == parts[0]
  {
    if parts == [] then ""
    else if |parts| == 1 then parts[0]
    else Join(parts[..|parts| - 1], sep) + sep + parts[|parts| - 1]
  }

  /** Joining one more part adds the separator and that part at the end. */
  lemma JoinSnoc(parts: seq<string>, sep: string, p: string)
    requires parts != []
    ensures Join(parts + [p], sep) == Join(parts, sep) + sep + p
  {
    assert (parts + [p])[..|parts|] == parts;
  }

  /** `s.split(sep)` for a one-character separator: the pieces between separators, at least one. */
  function Split(s: string, sep: char): (r: seq<string>)
    ensures |r| >= 1
  {
    if s == [] then [""]
    else
      var n := |s| - 1;
      var r := Split(s[..n], sep);
      if s[n] == sep then r + [""]
      else r[..|r| - 1] + [r[|r| - 1] + [s[n]]]
  }

  /** No piece of a split holds the separator. */
  lemma {:induction false} SplitPieces(s: string, sep: char)
    ensures forall i :: 0 <= i < |Split(s, sep)| ==> sep !in Split(s, sep)[i]
  {
    if s != [] {
      var n := |s| - 1;
      var r := Split(s[..n], sep);
      SplitPieces(s[..n], sep);
      if s[n] != sep {
        var k := |r| - 1;
        assert sep !in r[k];
        assert sep !in r[k] + [s[n]];
      }
    }
  }

  /** Joining the pieces of a split with the separator gives back the string. */
  lemma {:induction false} SplitJoin(s: string, sep: char)
    ensures Join(Split(s, sep), [sep]) == s
  {
    if s != [] {
      var n := |s| - 1;
      var r := Split(s[..n], sep);
      SplitJoin(s[..n], sep);
      assert s == s[..n] + [s[n]];
      if s[n] == sep {
        JoinSnoc(r, [sep], "");
      } else {
        var k := |r| - 1;
        if k == 0 {
          assert r == [r[0]];
        } else {
          assert r == r[..k] + [r[k]];
          JoinSnoc(r[..k], [sep], r[k]);
          JoinSnoc(r[..k], [sep], r[k] + [s[n]]);
        }
      }
    }
  }

  /** A string without the separator is one piece. */
  lemma {:induction false} SplitNone(s: string, sep: char)
    requires sep !in s
    ensures Split(s, sep) == [s]
  {
    if s != [] {
      var n := |s| - 1;
      SplitNone(s[..n], sep);
      assert s == s[..n] + [s[n]];
    }
  }
}

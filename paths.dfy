/** Splitting a path on '/' the way repeated `strsep(&p, "/")` does: every
    separator ends a component, so empty components are kept. */
module Paths {

  function Split(s: string): (r: seq<string>)
    ensures |r| >= 1
    ensures forall k :: 0 <= k < |r| ==> '/' !in r[k]
  {
    if s == [] then [""]
    else if s[0] == '/' then [""] + Split(s[1..])
    else
      var rest := Split(s[1..]);
      [[s[0]] + rest[0]] + rest[1..]
  }

  /** Re-inserting the separators between components. */
  function Join(parts: seq<string>): string
    requires |parts| >= 1
  {
    if |parts| == 1 then parts[0] else parts[0] + "/" + Join(parts[1..])
  }

  /** Number of occurrences of `c` in `s`. */
  function Count(s: string, c: char): nat {
    if s == [] then 0 else (if s[0] == c then 1 else 0) + Count(s[1..], c)
  }

  /** Splitting loses nothing: joining the components gives the path back. */
  lemma {:induction false} JoinSplit(s: string)
    ensures Join(Split(s)) == s
  {
    if s == [] {
    } else if s[0] == '/' {
      JoinSplit(s[1..]);
      assert Split(s)[1..] == Split(s[1..]);
    } else {
      var rest := Split(s[1..]);
      JoinSplit(s[1..]);
      if |rest| == 1 {
        assert Join(Split(s)) == [s[0]] + rest[0];
      } else {
        assert Split(s)[1..] == rest[1..];
        assert Join(rest) == rest[0] + "/" + Join(rest[1..]);
      }
    }
  }

  /** The path depth is one more than the number of separators. */
  lemma {:induction false} SplitDepth(s: string)
    ensures |Split(s)| == Count(s, '/') + 1
  {
    if s != [] {
      SplitDepth(s[1..]);
    }
  }

  /** Components without separators come back unchanged from a split of their join. */
  lemma {:induction false} SplitJoin(parts: seq<string>)
    requires |parts| >= 1
    requires forall k :: 0 <= k < |parts| ==> '/' !in parts[k]
    ensures Split(Join(parts)) == parts
    decreases |parts|, |parts[0]|
  {
    var p := parts[0];
    if p == [] {
      if |parts| > 1 {
        SplitJoin(parts[1..]);
        assert Join(parts) == "/" + Join(parts[1..]);
        assert Join(parts)[1..] == Join(parts[1..]);
        assert parts == [""] + parts[1..];
      }
    } else {
      var tail := [p[1..]] + parts[1..];
      assert forall k :: 0 <= k < |tail| ==> '/' !in tail[k] by {
        forall k | 0 <= k < |tail| ensures '/' !in tail[k] {
          if k == 0 { assert forall c :: c in p[1..] ==> c in p; }
        }
      }
      SplitJoin(tail);
      var j := Join(parts);
      if |parts| == 1 {
        assert j == p;
        assert j[1..] == Join(tail);
      } else {
        assert Join(tail) == p[1..] + "/" + Join(parts[1..]);
        assert j[1..] == Join(tail);
      }
      assert j[0] == p[0];
      assert [p[0]] + tail[0] == p;
      assert tail[1..] == parts[1..];
      assert parts == [[p[0]] + tail[0]] + tail[1..];
    }
  }
}

/** Facts about cutting sequences into consecutive parts and joining them again, used
    to locate the fields of the output. */
module Seqs {

  /** Concatenation is associative. */
  lemma Associative<T>(a: seq<T>, b: seq<T>, c: seq<T>)
    ensures a + b + c == a + (b + c)
  {
  }

  /** The parts of `a + (b + c)` sit at the offsets given by the lengths of the parts
      before them. */
  lemma Parts3<T>(a: seq<T>, b: seq<T>, c: seq<T>)
    ensures (a + (b + c))[..|a|] == a
    ensures (a + (b + c))[|a|..|a| + |b|] == b
    ensures (a + (b + c))[|a| + |b|..] == c
  {
    var s := a + (b + c);
    assert s[|a|..] == b + c;
    assert s[|a|..][..|b|] == s[|a|..|a| + |b|];
    assert s[|a|..][|b|..] == s[|a| + |b|..];
  }

  /** The five parts of `a + (b + (c + (d + e)))` sit at the offsets given by the lengths
      of the parts before them. */
  lemma Parts5<T>(a: seq<T>, b: seq<T>, c: seq<T>, d: seq<T>, e: seq<T>)
    ensures var s := a + (b + (c + (d + e)));
      && s[..|a|] == a
      && s[|a|..|a| + |b|] == b
      && s[|a| + |b|..|a| + |b| + |c|] == c
      && s[|a| + |b| + |c|..|a| + |b| + |c| + |d|] == d
      && s[|a| + |b| + |c| + |d|..] == e
  {
    var s := a + (b + (c + (d + e)));
    Parts3(a, b, c + (d + e));
    Parts3(c, d, e);
    var rest := s[|a| + |b|..];
    assert rest == c + (d + e);
    assert s[|a| + |b|..|a| + |b| + |c|] == rest[..|c|];
    assert s[|a| + |b| + |c|..|a| + |b| + |c| + |d|] == rest[|c|..|c| + |d|];
    assert s[|a| + |b| + |c| + |d|..] == rest[|c| + |d|..];
  }

  /** Five parts joined in order; each part sits at the offset given by the lengths of the
      parts before it. */
  function Concat5<T>(a: seq<T>, b: seq<T>, c: seq<T>, d: seq<T>, e: seq<T>): (s: seq<T>)
    ensures |s| == |a| + |b| + |c| + |d| + |e|
    ensures s[..|a|] == a
    ensures s[|a|..|a| + |b|] == b
    ensures s[|a| + |b|..|a| + |b| + |c|] == c
    ensures s[|a| + |b| + |c|..|s| - |e|] == d
    ensures s[|s| - |e|..] == e
  {
    Parts5(a, b, c, d, e);
    a + (b + (c + (d + e)))
  }

  /** A sequence is the join of its slices at any four increasing cut points. */
  lemma Join5<T>(s: seq<T>, i: nat, j: nat, k: nat, l: nat)
    requires i <= j <= k <= l <= |s|
    ensures s == s[..i] + (s[i..j] + (s[j..k] + (s[k..l] + s[l..])))
  {
    assert s[k..] == s[k..l] + s[l..];
    assert s[j..] == s[j..k] + s[k..];
    assert s[i..] == s[i..j] + s[j..];
    assert s == s[..i] + s[i..];
  }

  /** Two sequences of the same length that agree on five consecutive parts are equal. */
  lemma EqualByParts<T>(s: seq<T>, t: seq<T>, i: nat, j: nat, k: nat, l: nat)
    requires i <= j <= k <= l <= |s| == |t|
    requires s[..i] == t[..i] && s[i..j] == t[i..j] && s[j..k] == t[j..k]
    requires s[k..l] == t[k..l] && s[l..] == t[l..]
    ensures s == t
  {
    Join5(s, i, j, k, l);
    Join5(t, i, j, k, l);
  }
}

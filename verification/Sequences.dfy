/** Facts about sequences that the larger proofs quote instead of rediscovering. */
module Sequences {

  lemma {:induction false} Assoc<T>(a: seq<T>, b: seq<T>, c: seq<T>)
    ensures (a + b) + c == a + (b + c)
  {}

  /** Equal concatenations with an equal first part have an equal second part. */
  lemma {:induction false} Suffix<T>(a: seq<T>, b: seq<T>, c: seq<T>)
    requires a + b == a + c
    ensures b == c
  {
    assert b == (a + b)[|a|..] == (a + c)[|a|..] == c;
  }

  lemma {:induction false} TakeDrop<T>(a: seq<T>, b: seq<T>)
    ensures (a + b)[..|a|] == a && (a + b)[|a|..] == b
  {}

  lemma {:induction false} DropDrop<T>(s: seq<T>, a: nat, b: nat)
    requires a + b <= |s|
    ensures s[a..][b..] == s[a + b..]
  {}

  lemma {:induction false} Split<T>(s: seq<T>, k: nat)
    requires k <= |s|
    ensures s == s[..k] + s[k..]
  {}

  lemma {:induction false} TakeMore<T>(s: seq<T>, a: nat, b: nat)
    requires a <= b <= |s|
    ensures s[..b] == s[..a] + s[a..b]
  {}

  lemma {:induction false} PrefixRest<T>(a: seq<T>, b: seq<T>) returns (r: seq<T>)
    requires a <= b
    ensures a + r == b + []
  {
    r := b[|a|..];
  }

  /** How a concatenation with a non-empty first part begins. */
  lemma {:induction false} Uncons<T>(a: seq<T>, b: seq<T>)
    requires a != []
    ensures (a + b)[0] == a[0] && (a + b)[1..] == a[1..] + b
  {}

  lemma {:induction false} Empty<T>(a: seq<T>)
    ensures a + [] == a && [] + a == a
  {}

  /** A window of a window is a window. */
  lemma {:induction false} SubWindow<T>(s: seq<T>, base: nat, len: nat, offset: nat, n: nat)
    requires base + len <= |s| && offset + n <= len
    ensures s[base..base + len][offset..offset + n] == s[base + offset..base + offset + n]
    ensures s[base..base + len][..offset] == s[base..base + offset]
  {
    var a, b := s[base..base + len][offset..offset + n], s[base + offset..base + offset + n];
    assert |a| == |b| && forall i :: 0 <= i < n ==> a[i] == b[i];
  }
}

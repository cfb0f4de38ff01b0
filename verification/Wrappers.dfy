// Small types and facts that several modules share.
module Wrappers {
  datatype Option<T> = None | Some(value: T)

  // What tells one file from another.
  datatype DevIno = DevIno(dev: nat, ino: nat)

  predicate OccursAt<T(==)>(s: seq<T>, p: seq<T>, i: nat)
  {
    i + |p| <= |s| && s[i..i + |p|] == p
  }

  lemma OccursIndex<T>(s: seq<T>, p: seq<T>, i: nat, k: nat)
    requires OccursAt(s, p, i) && k < |p|
    ensures s[i + k] == p[k]
  {
    assert s[i..i + |p|][k] == s[i + k];
  }

  lemma Assoc<T>(a: seq<T>, b: seq<T>, c: seq<T>)
    ensures a + b + c == a + (b + c)
  {
  }
}

/** Removing from and inserting into a sequence. */
module Sequences {
  function Remove<T>(s: seq<T>, k: nat): seq<T>
    requires k < |s|
  {
    s[..k] + s[k + 1..]
  }

  function Insert<T>(s: seq<T>, k: nat, x: T): seq<T>
    requires k <= |s|
  {
    s[..k] + [x] + s[k..]
  }

  lemma RemoveIndex<T>(s: seq<T>, k: nat)
    requires k < |s|
    ensures |Remove(s, k)| == |s| - 1
    ensures forall i | 0 <= i < |s| - 1 :: Remove(s, k)[i] == s[if i < k then i else i + 1]
  {
  }

  lemma InsertIndex<T>(s: seq<T>, k: nat, x: T)
    requires k <= |s|
    ensures |Insert(s, k, x)| == |s| + 1 && Insert(s, k, x)[k] == x
    ensures forall i | 0 <= i <= |s| && i != k :: Insert(s, k, x)[i] == s[if i < k then i else i - 1]
  {
  }
}

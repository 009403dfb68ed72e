/** Removing from a sequence, and facts about sequences that the verifier does not apply on its own. */
module Seqs {
  lemma Associates<X>(a: seq<X>, b: seq<X>, c: seq<X>)
    ensures a + (b + c) == (a + b) + c
  {
  }

  lemma PrefixGrows<X>(s: seq<X>, i: nat)
    requires i < |s|
    ensures s[..i + 1] == s[..i] + [s[i]]
  {
  }

  lemma InitAndLast<X>(s: seq<X>)
    requires s != []
    ensures s == s[..|s| - 1] + [s[|s| - 1]]
  {
  }

  /** s without its element at i. */
  function Remove<X>(s: seq<X>, i: nat): seq<X>
    requires i < |s|
  {
    s[..i] + s[i + 1..]
  }

  /** Removing and cutting off the last element, in either order. */
  lemma RemovePrefix<X>(s: seq<X>, i: nat)
    requires i < |s|
    ensures var n, rest := |s| - 1, Remove(s, i);
            if i == n then rest == s[..n]
            else |rest| == n && rest[..n - 1] == Remove(s[..n], i) && rest[n - 1] == s[n] && s[..n][i] == s[i]
  {
  }
}

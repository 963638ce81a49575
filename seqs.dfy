/** Small facts about sequences that the proofs of both programs lean on. */
module Seqs {

  /** Concatenation regroups freely. */
  lemma AppendRegroup<T>(a: seq<T>, b: seq<T>, c: seq<T>, d: seq<T>)
    ensures a + (b + c) + d == a + b + (c + d)
  {
    assert a + (b + c) == a + b + c;
    assert a + b + c + d == a + b + (c + d);
  }

  /** Updating a place of the first part of a concatenation. */
  lemma UpdateAppend<T>(a: seq<T>, b: seq<T>, i: nat, ab: seq<T>, v: T)
    requires i < |a| && ab == a + b
    ensures ab[i := v] == a[i := v] + b
  {
  }

  /** Past the head, a place of `[x] + rest` is the place before it in `rest`. */
  lemma ConsShift<T>(s: seq<T>, x: T, rest: seq<T>, j: nat)
    requires s == [x] + rest && 0 < j < |s|
    ensures s[j] == rest[j - 1]
  {
  }

  /** Removing element `i` moves every later element back by one place. */
  lemma RemoveShifts<T>(cs: seq<T>, i: nat)
    requires i < |cs|
    ensures |cs[..i] + cs[i + 1..]| + 1 == |cs|
    ensures forall j :: i < j < |cs| ==> (cs[..i] + cs[i + 1..])[j - 1] == cs[j]
  {
  }

  /** Removing element `i` takes exactly that element out of the multiset, and every
      other member stays. */
  lemma RemoveMultiset<T>(cs: seq<T>, i: nat)
    requires i < |cs|
    ensures multiset(cs) == multiset(cs[..i] + cs[i + 1..]) + multiset{cs[i]}
    ensures forall c :: c in cs && c != cs[i] ==> c in cs[..i] + cs[i + 1..]
  {
    assert cs == cs[..i] + [cs[i]] + cs[i + 1..];
  }

  /** A nonempty sequence is its head followed by its tail. */
  lemma HeadTail<T>(s: seq<T>)
    requires s != []
    ensures [s[0]] + s[1..] == s
  {
  }
}

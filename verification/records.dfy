/** The three list transformations the store applies to its records: the
    spread-append of a create, the `map` of an update and the `filter` of a
    delete. Each returns a new list and leaves its argument alone. */
module Records {
  import opened Types

  /** Some record of `s` carries the identifier `k`. */
  predicate HasNumero(s: seq<Processo>, k: string)
  {
    exists i :: 0 <= i < |s| && s[i].numero == k
  }

  /** No two records of `s` share an identifier. */
  predicate UniqueNumeros(s: seq<Processo>)
  {
    forall i, j :: 0 <= i < j < |s| ==> s[i].numero != s[j].numero
  }

  /** `r` can be obtained from `s` by dropping elements, keeping the rest in order. */
  predicate IsSubsequence(r: seq<Processo>, s: seq<Processo>)
    decreases |s|
  {
    if r == [] then true
    else if s == [] then false
    else if r[0] == s[0] then IsSubsequence(r[1..], s[1..])
    else IsSubsequence(r, s[1..])
  }

  /** Create: `[...prev, novoProcesso]`. */
  function Append(s: seq<Processo>, p: Processo): (r: seq<Processo>)
    ensures |r| == |s| + 1
    ensures r[..|s|] == s
    ensures r[|s|] == p
  {
    s + [p]
  }

  /** Update: `prev.map(q => q.numero === p.numero ? p : q)`. Every record
      whose identifier is `p.numero` becomes `p`, not only the first one. */
  function ReplaceByNumero(s: seq<Processo>, p: Processo): (r: seq<Processo>)
    ensures |r| == |s|
    ensures forall i :: 0 <= i < |s| ==> r[i].numero == s[i].numero
    ensures forall i :: 0 <= i < |s| && s[i].numero == p.numero ==> r[i] == p
    ensures forall i :: 0 <= i < |s| && s[i].numero != p.numero ==> r[i] == s[i]
    ensures !HasNumero(s, p.numero) ==> r == s
    decreases |s|
  {
    if s == [] then []
    else
      var tail := ReplaceByNumero(s[1..], p);
      var r := [if s[0].numero == p.numero then p else s[0]] + tail;
      assert forall i :: 1 <= i < |s| ==> r[i] == tail[i - 1] && s[i] == s[1..][i - 1];
      r
  }

  /** Delete: `prev.filter(q => q.numero !== k)`. */
  function RemoveByNumero(s: seq<Processo>, k: string): (r: seq<Processo>)
    ensures forall x :: x in r <==> x in s && x.numero != k
    ensures forall x :: multiset(r)[x] == if x.numero == k then 0 else multiset(s)[x]
    ensures !HasNumero(s, k) ==> r == s
    decreases |s|
  {
    if s == [] then []
    else
      assert s == [s[0]] + s[1..];
      if s[0].numero == k then RemoveByNumero(s[1..], k)
      else [s[0]] + RemoveByNumero(s[1..], k)
  }

  /** A delete leaves no record carrying the deleted identifier. */
  lemma RemoveLeavesNoMatch(s: seq<Processo>, k: string)
    ensures !HasNumero(RemoveByNumero(s, k), k)
  {
  }

  /** Deleting works element by element: deleting from a concatenation is
      concatenating what survives of each part, so the survivors keep their
      relative order. */
  lemma {:induction false} RemoveConcat(a: seq<Processo>, b: seq<Processo>, k: string)
    ensures RemoveByNumero(a + b, k) == RemoveByNumero(a, k) + RemoveByNumero(b, k)
    decreases |a|
  {
    if a == [] {
      assert a + b == b;
    } else {
      assert (a + b)[0] == a[0];
      assert (a + b)[1..] == a[1..] + b;
      RemoveConcat(a[1..], b, k);
    }
  }

  /** What a delete leaves is a subsequence of the list it started from. With
      the multiset clause of `RemoveByNumero` this pins the result down: the
      records whose identifier is not `k`, every one of them, in their
      original order. */
  lemma {:induction false} RemoveIsSubsequence(s: seq<Processo>, k: string)
    ensures IsSubsequence(RemoveByNumero(s, k), s)
    decreases |s|
  {
    if s != [] {
      RemoveIsSubsequence(s[1..], k);
      var r := RemoveByNumero(s, k);
      if s[0].numero != k {
        assert r[0] == s[0] && r[1..] == RemoveByNumero(s[1..], k);
      } else {
        // s[0] is gone from r, so r is matched against the tail of s
        assert r != [] ==> r[0] in r && r[0] != s[0];
      }
    }
  }

  /** Keeping elements never adds to any element's count. */
  lemma {:induction false} SubsequenceMultiset(r: seq<Processo>, s: seq<Processo>)
    requires IsSubsequence(r, s)
    ensures multiset(r) <= multiset(s)
    decreases |s|
  {
    if r != [] {
      assert s == [s[0]] + s[1..];
      if r[0] == s[0] {
        assert r == [r[0]] + r[1..];
        SubsequenceMultiset(r[1..], s[1..]);
      } else {
        SubsequenceMultiset(r, s[1..]);
      }
    }
  }

  /** The result of a delete is the only subsequence of the list that holds
      each record not carrying `k` as often as the list does and no record
      carrying `k`: a delete keeps exactly the non-matching records, in their
      original order. */
  lemma {:induction false} RemoveIsUniqueSubsequence(r: seq<Processo>, s: seq<Processo>, k: string)
    requires IsSubsequence(r, s)
    requires forall x :: multiset(r)[x] == if x.numero == k then 0 else multiset(s)[x]
    ensures r == RemoveByNumero(s, k)
    decreases |s|
  {
    if s == [] {
      assert r == [];
    } else {
      var a, t := s[0], s[1..];
      assert s == [a] + t;
      if a.numero == k {
        assert r != [] ==> r[0] in multiset(r) && r[0] != a;
        RemoveIsUniqueSubsequence(r, t, k);
      } else {
        assert multiset(s)[a] == multiset(t)[a] + 1;
        if r == [] || r[0] != a {
          assert IsSubsequence(r, t);
          SubsequenceMultiset(r, t);
          assert false;
        }
        assert r == [a] + r[1..];
        forall x ensures multiset(r[1..])[x] == if x.numero == k then 0 else multiset(t)[x] {
        }
        RemoveIsUniqueSubsequence(r[1..], t, k);
      }
    }
  }

  /** Deleting a record that was just created under a fresh identifier gives
      back the list as it was before the create. */
  lemma DeleteUndoesCreate(s: seq<Processo>, p: Processo)
    requires !HasNumero(s, p.numero)
    ensures RemoveByNumero(Append(s, p), p.numero) == s
  {
    RemoveConcat(s, [p], p.numero);
    assert RemoveByNumero([p], p.numero) == [];
  }

  /** An update keeps identifiers where they were, so a list with unique
      identifiers keeps them unique. */
  lemma ReplacePreservesUniqueness(s: seq<Processo>, p: Processo)
    requires UniqueNumeros(s)
    ensures UniqueNumeros(ReplaceByNumero(s, p))
  {
  }

  /** Updating twice with the same record changes nothing more than updating
      once, on any list, duplicates included. */
  lemma ReplaceIdempotent(s: seq<Processo>, p: Processo)
    ensures ReplaceByNumero(ReplaceByNumero(s, p), p) == ReplaceByNumero(s, p)
  {
  }

  /** On a list where `p.numero` occurs once, at position `i`, an update with
      `p` replaces exactly that position; other identifiers may repeat. */
  lemma ReplaceSingleMatch(s: seq<Processo>, p: Processo, i: nat)
    requires i < |s| && s[i].numero == p.numero
    requires forall j :: 0 <= j < |s| && s[j].numero == p.numero ==> j == i
    ensures ReplaceByNumero(s, p) == s[i := p]
  {
  }
}

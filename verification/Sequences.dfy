/** Lists without repetitions. */
module Sequences {

  ghost function Elements<T>(s: seq<T>): set<T> {
    set x | x in s
  }

  ghost predicate NoDuplicates<T>(s: seq<T>) {
    forall i, j | 0 <= i < j < |s| :: s[i] != s[j]
  }

  lemma NoDuplicatesInSum<T>(s: seq<T>, t: seq<T>)
    requires NoDuplicates(s) && NoDuplicates(t) && forall y | y in t :: y !in s
    ensures NoDuplicates(s + t)
  {
    forall i, j | 0 <= i < j < |s + t| ensures (s + t)[i] != (s + t)[j] {
      if i < |s| <= j {
        assert t[j - |s|] in t;
      }
    }
  }

  ghost predicate AreFirstIn<T>(s: seq<T>, i: nat, done: set<T>) {
    i <= |s| && forall k | 0 <= k < i :: s[k] in done
  }

  lemma OneMoreIn<T>(s: seq<T>, i: nat, before: set<T>, done: set<T>)
    requires AreFirstIn(s, i, before) && before <= done && i < |s| && s[i] in done
    ensures AreFirstIn(s, i + 1, done)
  {
  }

  lemma TwoPlacesMeanTwice<T>(s: seq<T>, i: nat, j: nat)
    requires i < j < |s| && s[i] == s[j]
    ensures multiset(s)[s[i]] >= 2
  {
    assert s == s[..i] + [s[i]] + s[i + 1..j] + [s[j]] + s[j + 1..];
  }

  lemma Regroup<T>(a: seq<T>, b: seq<T>, c: seq<T>, d: seq<T>)
    ensures a + b + c + d == a + (b + c + d)
  {
  }
}

/**
 Dropping repetitions from a list while keeping the order in which its members are first seen.
 */
module FirstSeen {

  function Add<T(==)>(d: seq<T>, x: T): seq<T> {
    if x in d then d else d + [x]
  }

  /** The members of `s`, each where it first occurs. */
  function Dedupe<T(==)>(s: seq<T>): seq<T> {
    if s == [] then [] else Add(Dedupe(s[..|s| - 1]), s[|s| - 1])
  }

  ghost predicate Distinct<T>(s: seq<T>) {
    forall i, j :: 0 <= i < j < |s| ==> s[i] != s[j]
  }

  /** Where `x` first occurs in `s`. */
  function First<T(==)>(s: seq<T>, x: T): (k: nat)
    requires x in s
    ensures k < |s| && s[k] == x && x !in s[..k]
  {
    if s[0] == x then 0 else First(s[1..], x) + 1
  }

  /** `r` lists members of `s` in the order in which `s` first has them. */
  ghost predicate InOrder<T>(r: seq<T>, s: seq<T>) {
    && (forall x :: x in r ==> x in s)
    && (forall i, j :: 0 <= i < j < |r| ==> First(s, r[i]) < First(s, r[j]))
  }

  lemma DedupeSnoc<T>(s: seq<T>, x: T)
    ensures Dedupe(s + [x]) == Add(Dedupe(s), x)
  {
  }

  lemma {:induction false} DedupeKeepsMembers<T>(s: seq<T>, x: T)
    ensures x in Dedupe(s) <==> x in s
  {
    if s != [] {
      var n := |s| - 1;
      DedupeKeepsMembers(s[..n], x);
      assert s == s[..n] + [s[n]];
    }
  }

  lemma {:induction false} DedupeIsDistinct<T>(s: seq<T>)
    ensures Distinct(Dedupe(s))
  {
    if s != [] {
      DedupeIsDistinct(s[..|s| - 1]);
    }
  }

  lemma FirstOfPrefix<T>(s: seq<T>, n: nat, x: T)
    requires n <= |s| && x in s[..n]
    ensures x in s && First(s, x) == First(s[..n], x)
  {
    assert s[..n][..First(s[..n], x)] == s[..First(s[..n], x)];
  }

  lemma {:induction false} DedupeInOrder<T>(s: seq<T>)
    ensures InOrder(Dedupe(s), s)
  {
    if s != [] {
      var n := |s| - 1;
      var d, r := Dedupe(s[..n]), Dedupe(s);
      DedupeInOrder(s[..n]);
      forall x | x in r ensures x in s {
        DedupeKeepsMembers(s, x);
      }
      forall i, j | 0 <= i < j < |r| ensures First(s, r[i]) < First(s, r[j]) {
        FirstOfPrefix(s, n, d[i]);
        if j < |d| {
          FirstOfPrefix(s, n, d[j]);
        } else {
          DedupeKeepsMembers(s[..n], s[n]);
        }
      }
    }
  }

  lemma HasMember<T>(s: seq<T>)
    requires s != []
    ensures exists x :: x in s
  {
    assert s[0] in s;
  }

  /** The members and the order leave no choice. */
  lemma {:induction false} InOrderUnique<T(!new)>(s: seq<T>, a: seq<T>, b: seq<T>)
    requires InOrder(a, s) && InOrder(b, s)
    requires forall x :: x in a <==> x in b
    ensures a == b
  {
    if a == [] {
      if b != [] {
        HasMember(b);
      }
    } else {
      assert a[0] in b && b[0] in a;
      var p :| 0 <= p < |a| && a[p] == b[0];
      var q :| 0 <= q < |b| && b[q] == a[0];
      assert a[0] == b[0];
      forall x ensures x in a[1..] <==> x in b[1..] {
        assert x in a <==> x in b;
      }
      InOrderUnique(s, a[1..], b[1..]);
      assert a == [a[0]] + a[1..] && b == [b[0]] + b[1..];
    }
  }

  /** Deduplication is the one list of the same members in first-seen order. */
  lemma DedupeExactly<T(!new)>(s: seq<T>, r: seq<T>)
    ensures r == Dedupe(s) <==> InOrder(r, s) && forall x :: x in r <==> x in s
  {
    DedupeInOrder(s);
    forall x ensures x in Dedupe(s) <==> x in s {
      DedupeKeepsMembers(s, x);
    }
    if InOrder(r, s) && forall x :: x in r <==> x in s {
      InOrderUnique(s, r, Dedupe(s));
    }
  }

  lemma {:induction false} DistinctIsDeduped<T>(s: seq<T>)
    requires Distinct(s)
    ensures Dedupe(s) == s
  {
    if s != [] {
      var n := |s| - 1;
      DistinctIsDeduped(s[..n]);
      assert s == s[..n] + [s[n]];
    }
  }

  lemma {:induction false} DedupeLeft<T>(a: seq<T>, b: seq<T>)
    ensures Dedupe(Dedupe(a) + b) == Dedupe(a + b)
    decreases |b|
  {
    if b == [] {
      assert a + b == a && Dedupe(a) + b == Dedupe(a);
      DedupeIsDistinct(a);
      DistinctIsDeduped(Dedupe(a));
    } else {
      var c, x := b[..|b| - 1], b[|b| - 1];
      DedupeLeft(a, c);
      DedupeSnoc(a + c, x);
      DedupeSnoc(Dedupe(a) + c, x);
      assert a + b == (a + c) + [x] && Dedupe(a) + b == (Dedupe(a) + c) + [x];
    }
  }

  /** Deduplicating as the lists arrive is deduplicating once at the end. */
  lemma {:induction false} DedupeAsItArrives<T>(a: seq<T>, b: seq<T>)
    ensures Dedupe(Dedupe(a) + Dedupe(b)) == Dedupe(a + b)
    decreases |b|
  {
    if b == [] {
      DedupeLeft(a, b);
    } else {
      hide Dedupe;
      var c, x := b[..|b| - 1], b[|b| - 1];
      DedupeAsItArrives(a, c);
      DedupeSnoc(c, x);
      DedupeSnoc(a + c, x);
      assert b == c + [x] && a + b == (a + c) + [x];
      DedupeKeepsMembers(c, x);
      DedupeKeepsMembers(a + c, x);
      if x !in Dedupe(c) {
        DedupeSnoc(Dedupe(a) + Dedupe(c), x);
        assert Dedupe(a) + Dedupe(b) == (Dedupe(a) + Dedupe(c)) + [x];
      }
    }
  }

  method DedupeKeepOrder<T(==, !new)>(items: seq<T>) returns (result: seq<T>)
    ensures result == Dedupe(items)
  {
    var seen: set<T> := {};
    result := [];
    for i := 0 to |items|
      invariant result == Dedupe(items[..i])
      invariant forall x :: x in seen <==> x in result
    {
      assert items[..i + 1][..i] == items[..i];
      if items[i] in seen {
        continue;
      }
      seen := seen + {items[i]};
      result := result + [items[i]];
    }
    assert items[..|items|] == items;
  }
}

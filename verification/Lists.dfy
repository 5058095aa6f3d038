/** Facts about sequences used throughout. */
module Lists {

  function RemoveAt<T>(s: seq<T>, p: nat): seq<T>
    requires p < |s|
  {
    s[..p] + s[p + 1..]
  }

  lemma ConcatAssociative<T>(s: seq<T>, t: seq<T>, u: seq<T>)
    ensures s + t + u == s + (t + u)
  {
  }

  lemma RemoveAtMultiset<T>(s: seq<T>, p: nat)
    requires p < |s|
    ensures multiset(s) == multiset(RemoveAt(s, p)) + multiset{s[p]}
  {
    assert s == s[..p] + [s[p]] + s[p + 1..];
  }

  lemma CountedTwice<T>(s: seq<T>, i: nat, j: nat)
    requires i < j < |s| && s[i] == s[j]
    ensures multiset(s)[s[i]] >= 2
  {
    assert s == s[..i] + [s[i]] + s[i + 1..j] + [s[j]] + s[j + 1..];
  }

  /** Where the head of one list sits in a permutation of it; the two remainders are permutations. */
  lemma FindHead<T>(s: seq<T>, t: seq<T>) returns (p: nat)
    requires multiset(s) == multiset(t) && s != []
    ensures p < |t| && t[p] == s[0]
    ensures multiset(s[1..]) == multiset(RemoveAt(t, p))
  {
    assert s[0] in multiset(t);
    p :| 0 <= p < |t| && t[p] == s[0];
    RemoveAtMultiset(t, p);
    RemoveAtMultiset(s, 0);
    assert RemoveAt(s, 0) == s[1..];
    assert multiset(s[1..]) == multiset(s) - multiset{s[0]};
    assert multiset(RemoveAt(t, p)) == multiset(t) - multiset{t[p]};
  }

  function Flatten<T>(ss: seq<seq<T>>): seq<T> {
    if ss == [] then [] else ss[0] + Flatten(ss[1..])
  }

  lemma {:induction false} FlattenConcat<T>(ss: seq<seq<T>>, tt: seq<seq<T>>)
    ensures Flatten(ss + tt) == Flatten(ss) + Flatten(tt)
  {
    if ss == [] {
      assert ss + tt == tt;
    } else {
      assert (ss + tt)[1..] == ss[1..] + tt;
      FlattenConcat(ss[1..], tt);
    }
  }

  lemma {:induction false} InFlatten<T>(ss: seq<seq<T>>, w: nat, x: T)
    requires w < |ss| && x in ss[w]
    ensures x in Flatten(ss)
  {
    if w > 0 { InFlatten(ss[1..], w - 1, x); }
  }

  /** `x` occurs somewhere before `y`. */
  ghost predicate Precedes<T>(s: seq<T>, x: T, y: T) {
    exists i, j :: 0 <= i < j < |s| && s[i] == x && s[j] == y
  }

  lemma PrecedesInTail<T>(h: T, s: seq<T>, x: T, y: T)
    ensures Precedes([h] + s, x, y) <==> (x == h && y in s) || Precedes(s, x, y)
  {
    if x == h && y in s {
      var j :| 0 <= j < |s| && s[j] == y;
      assert ([h] + s)[0] == x && ([h] + s)[j + 1] == y;
    }
    if Precedes(s, x, y) {
      var i, j :| 0 <= i < j < |s| && s[i] == x && s[j] == y;
      assert ([h] + s)[i + 1] == x && ([h] + s)[j + 1] == y;
    }
    if Precedes([h] + s, x, y) {
      var i, j :| 0 <= i < j < |[h] + s| && ([h] + s)[i] == x && ([h] + s)[j] == y;
      assert s[j - 1] == y;
      if i > 0 { assert s[i - 1] == x; }
    }
  }
}

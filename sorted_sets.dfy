/** `sorted(set(xs))` on lists of paths: the normal form the image index is put
    in after every directory scan. */
module SortedSets {
  import opened StringOrder

  /** The set of paths a list holds (Python's `set(xs)`). */
  function Elems(s: seq<string>): set<string>
  {
    set x | x in s
  }

  lemma ElemsEmpty(s: seq<string>)
    ensures Elems(s) == {} <==> s == []
  {
    if s != [] {
      assert s[0] in Elems(s);
    }
  }

  /** Sorted in Python's string order with no path twice. */
  predicate StrictlySorted(s: seq<string>)
  {
    forall i, j :: 0 <= i < j < |s| ==> Below(s[i], s[j])
  }

  lemma SortedHasNoDuplicates(s: seq<string>)
    requires StrictlySorted(s)
    ensures forall i, j :: 0 <= i < |s| && 0 <= j < |s| && i != j ==> s[i] != s[j]
  {
    forall i, j | 0 <= i < |s| && 0 <= j < |s| && i != j
      ensures s[i] != s[j]
    {
      if i < j {
        BelowIrreflexive(s[i]);
      } else {
        BelowIrreflexive(s[j]);
      }
    }
  }

  /** Dropping the first path keeps a strictly sorted list strictly sorted and
      removes exactly that path. */
  lemma SortedTail(s: seq<string>)
    requires StrictlySorted(s) && s != []
    ensures StrictlySorted(s[1..])
    ensures Elems(s[1..]) == Elems(s) - {s[0]}
    ensures forall z :: z in s[1..] ==> Below(s[0], z)
  {
    assert s == [s[0]] + s[1..];
    forall z | z in s[1..]
      ensures Below(s[0], z)
    {
      var k :| 0 <= k < |s[1..]| && s[1..][k] == z;
      assert s[k + 1] == z;
    }
    if s[0] in s[1..] {
      BelowIrreflexive(s[0]);
    }
  }

  lemma PrependSorted(y: string, t: seq<string>)
    requires StrictlySorted(t)
    requires forall z :: z in t ==> Below(y, z)
    ensures StrictlySorted([y] + t)
  {
    var r := [y] + t;
    forall i, j | 0 <= i < j < |r|
      ensures Below(r[i], r[j])
    {
      assert r[j] == t[j - 1];
      if i > 0 {
        assert r[i] == t[i - 1];
      }
    }
  }

  /** A path below the head of a strictly sorted list is below every path in it. */
  lemma BelowAll(x: string, s: seq<string>)
    requires StrictlySorted(s) && s != [] && Below(x, s[0])
    ensures forall z :: z in s ==> Below(x, z)
  {
    forall z | z in s
      ensures Below(x, z)
    {
      var k :| 0 <= k < |s| && s[k] == z;
      if k > 0 {
        BelowTransitive(x, s[0], z);
      }
    }
  }

  /** Adds one path to a strictly sorted list at its place, unless it is there. */
  function Insert(s: seq<string>, x: string): (r: seq<string>)
    requires StrictlySorted(s)
    ensures StrictlySorted(r)
    ensures Elems(r) == Elems(s) + {x}
  {
    if s == [] then
      [x]
    else if x == s[0] then
      assert s == [s[0]] + s[1..];
      s
    else if Below(x, s[0]) then
      BelowAll(x, s);
      PrependSorted(x, s);
      [x] + s
    else
      BelowTotal(x, s[0]);
      SortedTail(s);
      var t := Insert(s[1..], x);
      AboveHead(s, x, t);
      PrependSorted(s[0], t);
      assert s == [s[0]] + s[1..];
      ElemsAppend([s[0]], s[1..]);
      ElemsAppend([s[0]], t);
      [s[0]] + t
  }

  lemma AboveHead(s: seq<string>, x: string, t: seq<string>)
    requires StrictlySorted(s) && s != [] && Below(s[0], x)
    requires Elems(t) == Elems(s[1..]) + {x}
    ensures forall z :: z in t ==> Below(s[0], z)
  {
    SortedTail(s);
    forall z | z in t
      ensures Below(s[0], z)
    {
      assert z in Elems(t);
      if z != x {
        assert z in Elems(s[1..]);
      }
    }
  }

  /** Python's `sorted(set(xs))`. */
  function SortedUnique(xs: seq<string>): (r: seq<string>)
    ensures StrictlySorted(r)
    ensures Elems(r) == Elems(xs)
  {
    if xs == [] then
      []
    else
      assert xs == [xs[0]] + xs[1..];
      Insert(SortedUnique(xs[1..]), xs[0])
  }

  /** A strictly sorted list is determined by the paths it holds: whatever order
      and repetitions `xs` has, `sorted(set(xs))` is the one sorted list of them. */
  lemma {:induction false} SortedDeterminedByElems(a: seq<string>, b: seq<string>)
    requires StrictlySorted(a) && StrictlySorted(b)
    requires Elems(a) == Elems(b)
    ensures a == b
  {
    ElemsEmpty(a);
    ElemsEmpty(b);
    if a != [] && b != [] {
      assert a[0] in Elems(b);
      var j :| 0 <= j < |b| && b[j] == a[0];
      assert b[0] in Elems(a);
      var i :| 0 <= i < |a| && a[i] == b[0];
      if j > 0 {
        if i > 0 {
          BelowAsymmetric(a[0], a[i]);
        } else {
          BelowIrreflexive(a[0]);
        }
        assert false;
      }
      SortedTail(a);
      SortedTail(b);
      assert a[0] == b[0];
      assert Elems(a[1..]) == Elems(b[1..]);
      SortedDeterminedByElems(a[1..], b[1..]);
      assert a == [a[0]] + a[1..] && b == [b[0]] + b[1..];
    }
  }

  lemma SortedUniqueOfSorted(s: seq<string>)
    requires StrictlySorted(s)
    ensures SortedUnique(s) == s
  {
    SortedDeterminedByElems(SortedUnique(s), s);
  }

  lemma SortedUniqueIdempotent(xs: seq<string>)
    ensures SortedUnique(SortedUnique(xs)) == SortedUnique(xs)
  {
    SortedUniqueOfSorted(SortedUnique(xs));
  }

  lemma ElemsAppend(a: seq<string>, b: seq<string>)
    ensures Elems(a + b) == Elems(a) + Elems(b)
  {
    forall z | z in a + b
      ensures z in a || z in b
    {
      var k :| 0 <= k < |a + b| && (a + b)[k] == z;
      if k >= |a| {
        assert b[k - |a|] == z;
      }
    }
  }

  /** Taking one path out of a strictly sorted list leaves it strictly sorted. */
  lemma RemoveKeepsSorted(s: seq<string>, k: nat)
    requires StrictlySorted(s) && k < |s|
    ensures StrictlySorted(s[..k] + s[k + 1..])
  {
    var r := s[..k] + s[k + 1..];
    forall i, j | 0 <= i < j < |r|
      ensures Below(r[i], r[j])
    {
      var i' := if i < k then i else i + 1;
      var j' := if j < k then j else j + 1;
      assert r[i] == s[i'] && r[j] == s[j'];
    }
  }
}

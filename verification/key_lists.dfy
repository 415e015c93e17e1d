/**
 * Lists of configuration key names, and the two PHP array functions the
 * exporter applies to them: `array_unique` (keep the first occurrence of
 * each key) and `array_intersect` (keep the entries of the first list that
 * also occur in the second, in their original order).
 */
module KeyLists {

  /** No key occurs twice. */
  predicate Distinct(xs: seq<string>) {
    forall i, j :: 0 <= i < j < |xs| ==> xs[i] != xs[j]
  }

  /** Position of the first occurrence of `x` in `xs`. */
  function IndexOf(xs: seq<string>, x: string): (i: nat)
    requires x in xs
    ensures i < |xs| && xs[i] == x
    ensures forall j :: 0 <= j < i ==> xs[j] != x
  {
    if xs[0] == x then 0 else 1 + IndexOf(xs[1..], x)
  }

  /** Every key of `s` occurs in `xs`, and `s` lists them in the order of their first occurrence in `xs`. */
  ghost predicate InFirstOccurrenceOrder(s: seq<string>, xs: seq<string>) {
    && (forall x :: x in s ==> x in xs)
    && forall i, j :: 0 <= i < j < |s| ==> IndexOf(xs, s[i]) < IndexOf(xs, s[j])
  }

  /** A key first seen inside a prefix is first seen at the same position in the whole list. */
  lemma IndexOfPrefix(xs: seq<string>, n: nat)
    requires n <= |xs|
    ensures forall x :: x in xs[..n] ==> x in xs && IndexOf(xs, x) == IndexOf(xs[..n], x)
  {
    forall x | x in xs[..n]
      ensures IndexOf(xs, x) == IndexOf(xs[..n], x)
    {
      var i, j := IndexOf(xs, x), IndexOf(xs[..n], x);
      assert xs[j] == x;
      assert forall k :: 0 <= k < j ==> xs[k] == xs[..n][k];
    }
  }

  /**
   * `array_unique`: the keys of `xs` without repetitions, each kept at its
   * first occurrence.
   */
  function Dedup(xs: seq<string>): (r: seq<string>)
    ensures Distinct(r)
    ensures forall x :: x in r <==> x in xs
    ensures InFirstOccurrenceOrder(r, xs)
    decreases |xs|
  {
    if xs == [] then []
    else
      var init := Dedup(xs[..|xs| - 1]);
      var last := xs[|xs| - 1];
      IndexOfPrefix(xs, |xs| - 1);
      assert xs == xs[..|xs| - 1] + [last];
      if last in init then init
      else
        assert IndexOf(xs, last) == |xs| - 1;
        init + [last]
  }

  /** Dropping the first key keeps a list in first-occurrence order. */
  lemma TailInFirstOccurrenceOrder(s: seq<string>, xs: seq<string>)
    requires s != [] && InFirstOccurrenceOrder(s, xs)
    ensures InFirstOccurrenceOrder(s[1..], xs)
  {
    forall i, j | 0 <= i < j < |s[1..]|
      ensures IndexOf(xs, s[1..][i]) < IndexOf(xs, s[1..][j])
    {
      assert s[1..][i] == s[i + 1] && s[1..][j] == s[j + 1];
    }
  }

  /** A list is empty or contains its own head. */
  lemma EmptyOrHasHead(t: seq<string>)
    ensures t == [] || t[0] in t
  {
  }

  /** The head of a list in first-occurrence order is the key seen first. */
  lemma HeadComesFirst(s: seq<string>, xs: seq<string>, x: string)
    requires InFirstOccurrenceOrder(s, xs) && x in s
    ensures IndexOf(xs, s[0]) <= IndexOf(xs, x)
  {
    var i := IndexOf(s, x);
    assert i == 0 || IndexOf(xs, s[0]) < IndexOf(xs, s[i]);
  }

  /** In a repetition-free list, the keys after the head are the others. */
  lemma TailMembers(s: seq<string>)
    requires s != [] && Distinct(s)
    ensures forall x :: x in s[1..] <==> x in s && x != s[0]
  {
    forall x | x in s && x != s[0]
      ensures x in s[1..]
    {
      var i := IndexOf(s, x);
      assert s[1..][i - 1] == x;
    }
  }

  /**
   * Two repetition-free lists of the same keys, both in first-occurrence
   * order of `xs`, are equal: the contract of `Dedup` determines its result.
   */
  lemma {:induction false} FirstOccurrenceOrderUnique(xs: seq<string>, s: seq<string>, t: seq<string>)
    requires Distinct(s) && Distinct(t)
    requires forall x :: x in s <==> x in t
    requires InFirstOccurrenceOrder(s, xs) && InFirstOccurrenceOrder(t, xs)
    ensures s == t
    decreases |s|
  {
    if s == [] {
      EmptyOrHasHead(t);
    } else {
      assert t != [] by { assert s[0] in t; }
      HeadComesFirst(s, xs, t[0]);
      HeadComesFirst(t, xs, s[0]);
      assert xs[IndexOf(xs, s[0])] == s[0] && xs[IndexOf(xs, t[0])] == t[0];
      TailMembers(s);
      TailMembers(t);
      TailInFirstOccurrenceOrder(s, xs);
      TailInFirstOccurrenceOrder(t, xs);
      FirstOccurrenceOrderUnique(xs, s[1..], t[1..]);
      assert s == [s[0]] + s[1..] && t == [t[0]] + t[1..];
    }
  }

  /** A list that is already free of repetitions is left as it is. */
  lemma {:induction false} DedupOfDistinct(xs: seq<string>)
    requires Distinct(xs)
    ensures Dedup(xs) == xs
    decreases |xs|
  {
    if xs != [] {
      var init := xs[..|xs| - 1];
      DedupOfDistinct(init);
      assert xs[|xs| - 1] !in init;
      assert xs == init + [xs[|xs| - 1]];
    }
  }

  /**
   * De-duplicating `a + b` for a repetition-free `a` keeps `a` in place at
   * the front: keys already present keep their positions, and only keys of
   * `b` that are new are appended after them.
   */
  lemma {:induction false} DedupKeepsDistinctPrefix(a: seq<string>, b: seq<string>)
    requires Distinct(a)
    ensures |a| <= |Dedup(a + b)|
    ensures Dedup(a + b)[..|a|] == a
    decreases |b|
  {
    if b == [] {
      assert a + b == a;
      DedupOfDistinct(a);
    } else {
      var b' := b[..|b| - 1];
      DedupKeepsDistinctPrefix(a, b');
      assert (a + b)[..|a + b| - 1] == a + b';
    }
  }

  /**
   * `array_intersect(xs, allowed)`: the entries of `xs` whose key occurs in
   * `allowed`, repetitions included, in the order of `xs`.
   */
  function Intersect(xs: seq<string>, allowed: seq<string>): (r: seq<string>)
    ensures forall x :: x in r <==> x in xs && x in allowed
    ensures forall x :: x in allowed ==> multiset(r)[x] == multiset(xs)[x]
    ensures |r| <= |xs|
  {
    if xs == [] then []
    else
      assert xs == [xs[0]] + xs[1..];
      if xs[0] in allowed then [xs[0]] + Intersect(xs[1..], allowed)
      else Intersect(xs[1..], allowed)
  }

  /**
   * `array_intersect` filters entry by entry: the intersection of a
   * concatenation is the concatenation of the intersections.
   */
  lemma {:induction false} IntersectConcat(xs: seq<string>, ys: seq<string>, allowed: seq<string>)
    ensures Intersect(xs + ys, allowed) == Intersect(xs, allowed) + Intersect(ys, allowed)
    decreases |xs|
  {
    if xs == [] {
      assert xs + ys == ys;
    } else {
      var head := if xs[0] in allowed then [xs[0]] else [];
      IntersectConcat(xs[1..], ys, allowed);
      IntersectUnfold(xs, allowed);
      IntersectUnfold(xs + ys, allowed);
      ConcatHeadTail(xs, ys);
      AppendAssoc(head, Intersect(xs[1..], allowed), Intersect(ys, allowed));
    }
  }

  /** The first step of `Intersect`, as a fact about any non-empty list. */
  lemma IntersectUnfold(zs: seq<string>, allowed: seq<string>)
    requires zs != []
    ensures Intersect(zs, allowed) == (if zs[0] in allowed then [zs[0]] else []) + Intersect(zs[1..], allowed)
  {
  }

  /** The head and tail of a concatenation whose first part is non-empty. */
  lemma ConcatHeadTail(xs: seq<string>, ys: seq<string>)
    requires xs != []
    ensures xs + ys != [] && (xs + ys)[0] == xs[0] && (xs + ys)[1..] == xs[1..] + ys
  {
  }

  /** Concatenation is associative. */
  lemma AppendAssoc(a: seq<string>, b: seq<string>, c: seq<string>)
    ensures a + (b + c) == (a + b) + c
  {
  }

  /** A single key survives `array_intersect` exactly when it is allowed. */
  lemma IntersectSingle(x: string, allowed: seq<string>)
    ensures Intersect([x], allowed) == if x in allowed then [x] else []
  {
    assert [x][1..] == [];
  }

  /**
   * `array_intersect` keeps the order of its first argument: two surviving
   * keys are first seen in the same relative order before and after.
   */
  lemma {:induction false} IntersectKeepsOrder(xs: seq<string>, allowed: seq<string>, a: string, b: string)
    requires a in Intersect(xs, allowed) && b in Intersect(xs, allowed)
    ensures IndexOf(Intersect(xs, allowed), a) < IndexOf(Intersect(xs, allowed), b)
        <==> IndexOf(xs, a) < IndexOf(xs, b)
    decreases |xs|
  {
    var r := Intersect(xs, allowed);
    var r' := Intersect(xs[1..], allowed);
    if a == xs[0] || b == xs[0] {
      if xs[0] in allowed {
        assert r[0] == xs[0];
      }
    } else {
      if xs[0] in allowed {
        assert r == [xs[0]] + r';
        assert r[1..] == r';
      }
      IntersectKeepsOrder(xs[1..], allowed, a, b);
    }
  }

  /** The keys of the intersection, de-duplicated, follow the first-seen order of `xs`. */
  lemma DedupIntersectOrder(xs: seq<string>, allowed: seq<string>)
    ensures InFirstOccurrenceOrder(Dedup(Intersect(xs, allowed)), xs)
  {
    var ys := Intersect(xs, allowed);
    var r := Dedup(ys);
    forall i, j | 0 <= i < j < |r|
      ensures IndexOf(xs, r[i]) < IndexOf(xs, r[j])
    {
      IntersectKeepsOrder(xs, allowed, r[i], r[j]);
    }
  }

  /** First-occurrence order carries over from an intermediate list to the list it was drawn from. */
  lemma FirstOccurrenceOrderTransitive(s: seq<string>, mid: seq<string>, xs: seq<string>)
    requires InFirstOccurrenceOrder(s, mid) && InFirstOccurrenceOrder(mid, xs)
    ensures InFirstOccurrenceOrder(s, xs)
  {
    forall i, j | 0 <= i < j < |s|
      ensures IndexOf(xs, s[i]) < IndexOf(xs, s[j])
    {
      var a, b := IndexOf(mid, s[i]), IndexOf(mid, s[j]);
      assert mid[a] == s[i] && mid[b] == s[j];
    }
  }
}

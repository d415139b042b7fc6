/** Counting with Python's insertion-ordered `dict`: `d[k] = d.get(k, 0) + 1`
    over a sequence of keys, and `sorted(d.items(), key=lambda x: -x[1])`, the
    stable sort by descending count. A dict of counts is a sequence of
    `(key, count)` pairs in insertion order. */
module Tally {

  /** Keys of the counting dicts: domain names and tag labels. */
  type Key = string

  /** Number of occurrences of `k` in `xs`. */
  function Occurrences(xs: seq<Key>, k: Key): nat {
    if |xs| == 0 then 0 else Occurrences(xs[..|xs| - 1], k) + (if xs[|xs| - 1] == k then 1 else 0)
  }

  /** Index of the first occurrence of `k` in `xs`. */
  function FirstIndex(xs: seq<Key>, k: Key): (i: nat)
    requires k in xs
    ensures i < |xs| && xs[i] == k
    ensures forall j :: 0 <= j < i ==> xs[j] != k
  {
    if xs[0] == k then 0 else 1 + FirstIndex(xs[1..], k)
  }

  function Keys(t: seq<(Key, nat)>): (ks: seq<Key>)
    ensures |ks| == |t|
    ensures forall i :: 0 <= i < |t| ==> ks[i] == t[i].0
  {
    if |t| == 0 then [] else [t[0].0] + Keys(t[1..])
  }

  /** Every key appears once, as in a `dict`. */
  predicate DistinctKeys(t: seq<(Key, nat)>) {
    forall i, j :: 0 <= i < j < |t| ==> t[i].0 != t[j].0
  }

  /** `d.get(k, 0)`. */
  function Get(t: seq<(Key, nat)>, k: Key): nat {
    if |t| == 0 then 0 else if t[0].0 == k then t[0].1 else Get(t[1..], k)
  }

  /** Sum of all counts, `sum(d.values())`. */
  function Total(t: seq<(Key, nat)>): nat {
    if |t| == 0 then 0 else t[0].1 + Total(t[1..])
  }

  lemma GetOfKey(t: seq<(Key, nat)>, i: nat)
    requires DistinctKeys(t) && i < |t|
    ensures Get(t, t[i].0) == t[i].1
  {
    if i > 0 {
      GetOfKey(t[1..], i - 1);
    }
  }

  lemma GetOfAbsent(t: seq<(Key, nat)>, k: Key)
    requires k !in Keys(t)
    ensures Get(t, k) == 0
  {
    if |t| > 0 {
      assert Keys(t[1..]) == Keys(t)[1..];
      GetOfAbsent(t[1..], k);
    }
  }

  /** `d[k] = d.get(k, 0) + 1`: an existing key keeps its place, a new key goes last. */
  function Bump(t: seq<(Key, nat)>, k: Key): (r: seq<(Key, nat)>)
    requires DistinctKeys(t)
    ensures DistinctKeys(r)
    ensures Keys(r) == if k in Keys(t) then Keys(t) else Keys(t) + [k]
  {
    if |t| == 0 then [(k, 1)]
    else if t[0].0 == k then
      BumpHere(t, k);
      [(k, t[0].1 + 1)] + t[1..]
    else
      KeysDistinctTail(t);
      var rest := Bump(t[1..], k);
      BumpLater(t, k, rest);
      [t[0]] + rest
  }

  /** Dropping the first entry keeps the keys distinct. */
  lemma KeysDistinctTail(t: seq<(Key, nat)>)
    requires DistinctKeys(t) && |t| > 0
    ensures DistinctKeys(t[1..]) && t[0].0 !in Keys(t[1..])
  {
    var u := t[1..];
    forall i | 0 <= i < |u|
      ensures Keys(u)[i] != t[0].0
    {
      assert u[i] == t[i + 1];
    }
    forall i, j | 0 <= i < j < |u|
      ensures u[i].0 != u[j].0
    {
      assert u[i] == t[i + 1] && u[j] == t[j + 1];
    }
  }

  /** Bumping the first key keeps every key where it is. */
  lemma BumpHere(t: seq<(Key, nat)>, k: Key)
    requires DistinctKeys(t) && |t| > 0 && t[0].0 == k
    ensures var r := [(k, t[0].1 + 1)] + t[1..];
      DistinctKeys(r) && k in Keys(t) && Keys(r) == Keys(t)
  {
    var r := [(k, t[0].1 + 1)] + t[1..];
    assert Keys(t)[0] == k;
    assert forall i :: 0 <= i < |t| ==> r[i].0 == t[i].0;
  }

  /** Bumping a later key keeps the first entry in front of the tail's result. */
  lemma BumpLater(t: seq<(Key, nat)>, k: Key, rest: seq<(Key, nat)>)
    requires DistinctKeys(t) && |t| > 0 && t[0].0 != k
    requires DistinctKeys(rest)
    requires Keys(rest) == if k in Keys(t[1..]) then Keys(t[1..]) else Keys(t[1..]) + [k]
    ensures DistinctKeys([t[0]] + rest)
    ensures Keys([t[0]] + rest) == if k in Keys(t) then Keys(t) else Keys(t) + [k]
  {
    KeysDistinctTail(t);
    var u := t[1..];
    assert Keys(t) == [t[0].0] + Keys(u);
    KeysCons(t[0], rest);
    assert t[0].0 !in Keys(rest);
    DistinctCons(t[0], rest);
  }

  lemma KeysCons(p: (Key, nat), t: seq<(Key, nat)>)
    ensures Keys([p] + t) == [p.0] + Keys(t)
  {
    assert ([p] + t)[1..] == t;
  }

  /** An entry whose key is new can go in front. */
  lemma DistinctCons(p: (Key, nat), t: seq<(Key, nat)>)
    requires DistinctKeys(t) && p.0 !in Keys(t)
    ensures DistinctKeys([p] + t)
  {
    var r := [p] + t;
    forall i, j | 0 <= i < j < |r|
      ensures r[i].0 != r[j].0
    {
      assert r[j] == t[j - 1];
      if i == 0 {
        assert Keys(t)[j - 1] == t[j - 1].0;
      } else {
        assert r[i] == t[i - 1];
      }
    }
  }

  /** Bumping `k` adds one to its count and to the total and leaves every
      other count alone; a new entry starts at one. */
  lemma {:induction false} BumpCounts(t: seq<(Key, nat)>, k: Key)
    requires DistinctKeys(t)
    ensures Get(Bump(t, k), k) == Get(t, k) + 1
    ensures forall j :: j != k ==> Get(Bump(t, k), j) == Get(t, j)
    ensures Total(Bump(t, k)) == Total(t) + 1
    ensures forall i :: 0 <= i < |Bump(t, k)| ==> Bump(t, k)[i].1 > 0 || (i < |t| && Bump(t, k)[i] == t[i])
  {
    if |t| > 0 && t[0].0 != k {
      BumpCounts(t[1..], k);
      var r := Bump(t, k);
      assert r[1..] == Bump(t[1..], k);
    }
  }

  /** The key of every record, in record order: the column a tally counts. */
  function Column<T>(xs: seq<T>, key: T -> Key): (ks: seq<Key>)
    ensures |ks| == |xs| && forall i :: 0 <= i < |xs| ==> ks[i] == key(xs[i])
  {
    seq(|xs|, i requires 0 <= i < |xs| => key(xs[i]))
  }

  /** The count dict of `xs`: for `x in xs: d[x] = d.get(x, 0) + 1`. */
  function TallyOf(xs: seq<Key>): (t: seq<(Key, nat)>)
    ensures DistinctKeys(t)
  {
    if |xs| == 0 then [] else Bump(TallyOf(xs[..|xs| - 1]), xs[|xs| - 1])
  }

  /** The count dict has one entry per distinct key, each count is that key's
      number of occurrences, the counts sum to `|xs|`, and the keys stand in
      the order of their first occurrence in `xs`. */
  lemma TallyOfSpec(xs: seq<Key>)
    ensures forall k :: k in Keys(TallyOf(xs)) <==> k in xs
    ensures forall k :: Get(TallyOf(xs), k) == Occurrences(xs, k)
    ensures Total(TallyOf(xs)) == |xs|
    ensures forall i, j :: 0 <= i < j < |TallyOf(xs)| ==>
              TallyOf(xs)[i].0 in xs && TallyOf(xs)[j].0 in xs &&
              FirstIndex(xs, TallyOf(xs)[i].0) < FirstIndex(xs, TallyOf(xs)[j].0)
    ensures forall i :: 0 <= i < |TallyOf(xs)| ==> TallyOf(xs)[i].1 > 0
  {
    TallyOfCounts(xs);
    TallyOfOrder(xs);
    var t := TallyOf(xs);
    forall i, j | 0 <= i < j < |t|
      ensures t[i].0 in xs && t[j].0 in xs && FirstIndex(xs, t[i].0) < FirstIndex(xs, t[j].0)
    {
      assert Keys(t)[i] == t[i].0 && Keys(t)[j] == t[j].0;
    }
  }

  /** The keys, counts and total of the count dict. */
  lemma {:induction false} TallyOfCounts(xs: seq<Key>)
    ensures forall k :: k in Keys(TallyOf(xs)) <==> k in xs
    ensures forall k :: Get(TallyOf(xs), k) == Occurrences(xs, k)
    ensures Total(TallyOf(xs)) == |xs|
    ensures forall i :: 0 <= i < |TallyOf(xs)| ==> TallyOf(xs)[i].1 > 0
  {
    if |xs| > 0 {
      var ys, x := xs[..|xs| - 1], xs[|xs| - 1];
      assert xs == ys + [x];
      TallyOfCounts(ys);
      var t := TallyOf(ys);
      var r := TallyOf(xs);
      assert r == Bump(t, x);
      BumpCounts(t, x);
      forall k
        ensures k in Keys(r) <==> k in xs
      {
        assert k in xs <==> k in ys || k == x;
      }
    }
  }

  /** The keys `ks` all occur in `xs` and stand in the order of their first occurrence. */
  predicate FirstOccurrenceOrder(ks: seq<Key>, xs: seq<Key>) {
    forall i, j :: 0 <= i < j < |ks| ==>
      ks[i] in xs && ks[j] in xs && FirstIndex(xs, ks[i]) < FirstIndex(xs, ks[j])
  }

  /** The keys of the count dict stand in the order of first occurrence. */
  lemma {:induction false} TallyOfOrder(xs: seq<Key>)
    ensures FirstOccurrenceOrder(Keys(TallyOf(xs)), xs)
  {
    if |xs| > 0 {
      var ys, x := xs[..|xs| - 1], xs[|xs| - 1];
      assert xs == ys + [x];
      TallyOfOrder(ys);
      TallyOfCounts(ys);
      var t := TallyOf(ys);
      assert TallyOf(xs) == Bump(t, x);
      OrderSnoc(Keys(t), ys, x);
    }
  }

  /** Counting one more key keeps the keys in first-occurrence order. */
  lemma OrderSnoc(ks: seq<Key>, ys: seq<Key>, x: Key)
    requires FirstOccurrenceOrder(ks, ys)
    requires forall k :: k in ks <==> k in ys
    ensures FirstOccurrenceOrder(if x in ks then ks else ks + [x], ys + [x])
  {
    var xs := ys + [x];
    var ks' := if x in ks then ks else ks + [x];
    forall k | k in ys
      ensures k in xs && FirstIndex(xs, k) == FirstIndex(ys, k)
    {
      FirstIndexOfPrefix(ys, x, k);
    }
    if x !in ks {
      FirstIndexOfNew(ys, x);
    }
    forall i, j | 0 <= i < j < |ks'|
      ensures ks'[i] in xs && ks'[j] in xs && FirstIndex(xs, ks'[i]) < FirstIndex(xs, ks'[j])
    {
      assert ks'[i] == ks[i] && ks[i] in ys;
      if j < |ks| {
        assert ks'[j] == ks[j];
      } else {
        assert ks'[j] == x;
      }
    }
  }

  lemma FirstIndexOfPrefix(ys: seq<Key>, x: Key, k: Key)
    requires k in ys
    ensures k in ys + [x] && FirstIndex(ys + [x], k) == FirstIndex(ys, k)
  {
    if ys[0] != k {
      assert (ys + [x])[1..] == ys[1..] + [x];
      FirstIndexOfPrefix(ys[1..], x, k);
    }
  }

  lemma FirstIndexOfNew(ys: seq<Key>, x: Key)
    requires x !in ys
    ensures FirstIndex(ys + [x], x) == |ys|
  {
    if |ys| > 0 {
      assert (ys + [x])[1..] == ys[1..] + [x];
      FirstIndexOfNew(ys[1..], x);
    }
  }

  // ---------------------------------------------------------------------------
  // Stable sort by descending count
  // ---------------------------------------------------------------------------

  /** Counts never increase along `t`. */
  predicate NonIncreasing(t: seq<(Key, nat)>) {
    forall i, j :: 0 <= i < j < |t| ==> t[i].1 >= t[j].1
  }

  /** The entries of `t` whose count is `c`, in order. */
  function WithCount(t: seq<(Key, nat)>, c: nat): seq<(Key, nat)> {
    if |t| == 0 then [] else (if t[0].1 == c then [t[0]] else []) + WithCount(t[1..], c)
  }

  /** Puts `p` after every entry with a larger count and before the rest. */
  function Insert(p: (Key, nat), t: seq<(Key, nat)>): (r: seq<(Key, nat)>)
    ensures multiset(r) == multiset(t) + multiset{p}
  {
    if |t| == 0 || t[0].1 <= p.1 then
      [p] + t
    else
      assert t == [t[0]] + t[1..];
      [t[0]] + Insert(p, t[1..])
  }

  lemma {:induction false} InsertKeepsOrder(p: (Key, nat), t: seq<(Key, nat)>)
    requires NonIncreasing(t)
    ensures NonIncreasing(Insert(p, t))
  {
    if |t| == 0 || t[0].1 <= p.1 {
      NonIncreasingCons(p, t);
    } else {
      var u := t[1..];
      assert NonIncreasing(u) by {
        assert forall i :: 0 <= i < |u| ==> u[i] == t[i + 1];
      }
      InsertKeepsOrder(p, u);
      var r' := Insert(p, u);
      InsertHead(p, u);
      NonIncreasingCons(t[0], r');
      assert Insert(p, t) == [t[0]] + r';
    }
  }

  /** The first entry after an insertion is the inserted one or the old first one. */
  lemma InsertHead(p: (Key, nat), t: seq<(Key, nat)>)
    ensures |Insert(p, t)| > 0
    ensures Insert(p, t)[0] == p || (|t| > 0 && Insert(p, t)[0] == t[0])
  {
  }

  /** An entry with a count no smaller than the first can go in front. */
  lemma NonIncreasingCons(x: (Key, nat), t: seq<(Key, nat)>)
    requires NonIncreasing(t) && (|t| > 0 ==> t[0].1 <= x.1)
    ensures NonIncreasing([x] + t)
  {
    var r := [x] + t;
    forall i, j | 0 <= i < j < |r|
      ensures r[i].1 >= r[j].1
    {
      assert r[j] == t[j - 1];
      if i > 0 {
        assert r[i] == t[i - 1];
      } else {
        assert t[0].1 >= t[j - 1].1;
      }
    }
  }

  lemma {:induction false} InsertWithCount(p: (Key, nat), t: seq<(Key, nat)>, c: nat)
    ensures WithCount(Insert(p, t), c) == (if p.1 == c then [p] else []) + WithCount(t, c)
  {
    if |t| == 0 || t[0].1 <= p.1 {
      ConsSteps(p, t, c);
    } else {
      var u := t[1..];
      var r' := Insert(p, u);
      InsertWithCount(p, u, c);
      assert Insert(p, t) == [t[0]] + r';
      ConsSteps(t[0], r', c);
      ConsSteps(t[0], u, c);
      assert t == [t[0]] + u;
      var w := WithCount(u, c);
      if p.1 == c {
        assert WithCount(t, c) == w;
        assert WithCount(r', c) == [p] + w;
      } else {
        assert WithCount(r', c) == w;
      }
    }
  }

  /** `Total` and `WithCount` on `[x] + s`, one step each. */
  lemma ConsSteps(x: (Key, nat), s: seq<(Key, nat)>, c: nat)
    ensures WithCount([x] + s, c) == (if x.1 == c then [x] else []) + WithCount(s, c)
    ensures Total([x] + s) == x.1 + Total(s)
  {
    ConsParts(x, s);
  }

  /** `Get` on `[x] + s`, one step. */
  lemma GetCons(x: (Key, nat), s: seq<(Key, nat)>, k: Key)
    ensures Get([x] + s, k) == if x.0 == k then x.1 else Get(s, k)
  {
    ConsParts(x, s);
  }

  /** The head and tail of `[x] + s`. */
  lemma ConsParts(x: (Key, nat), s: seq<(Key, nat)>)
    ensures ([x] + s)[0] == x && ([x] + s)[1..] == s
  {
  }

  /** `sorted(t, key=lambda x: -x[1])`: Python's sort is stable, so entries with
      equal counts keep their relative order. */
  function SortByCountDesc(t: seq<(Key, nat)>): (r: seq<(Key, nat)>)
    ensures |r| == |t|
    ensures multiset(r) == multiset(t)
    ensures NonIncreasing(r)
    ensures forall c :: WithCount(r, c) == WithCount(t, c)
  {
    if |t| == 0 then []
    else
      assert t == [t[0]] + t[1..];
      var rest := SortByCountDesc(t[1..]);
      InsertKeepsOrder(t[0], rest);
      forall c
        ensures WithCount(Insert(t[0], rest), c) == WithCount(t, c)
      {
        InsertWithCount(t[0], rest, c);
      }
      assert multiset(t) == multiset{t[0]} + multiset(t[1..]);
      Insert(t[0], rest)
  }

  lemma {:induction false} InsertTotal(p: (Key, nat), t: seq<(Key, nat)>)
    ensures Total(Insert(p, t)) == p.1 + Total(t)
  {
    if |t| == 0 || t[0].1 <= p.1 {
      ConsSteps(p, t, 0);
    } else {
      var u := t[1..];
      var r' := Insert(p, u);
      InsertTotal(p, u);
      assert Insert(p, t) == [t[0]] + r';
      ConsSteps(t[0], r', 0);
      ConsSteps(t[0], u, 0);
      assert t == [t[0]] + u;
    }
  }

  lemma {:induction false} InsertGet(p: (Key, nat), t: seq<(Key, nat)>, k: Key)
    requires p.0 !in Keys(t)
    ensures Get(Insert(p, t), k) == if k == p.0 then p.1 else Get(t, k)
  {
    if |t| == 0 || t[0].1 <= p.1 {
      GetCons(p, t, k);
    } else {
      var u := t[1..];
      var r' := Insert(p, u);
      assert Keys(t) == [t[0].0] + Keys(u);
      assert t[0].0 != p.0;
      InsertGet(p, u, k);
      assert Insert(p, t) == [t[0]] + r';
      GetCons(t[0], r', k);
      assert t == [t[0]] + u;
      GetCons(t[0], u, k);
      if k == p.0 {
        assert Get(Insert(p, t), k) == Get(r', k) == p.1;
      } else if t[0].0 == k {
        assert Get(Insert(p, t), k) == t[0].1 == Get(t, k);
      } else {
        assert Get(Insert(p, t), k) == Get(r', k) == Get(u, k) == Get(t, k);
      }
    }
  }

  lemma {:induction false} InsertKeys(p: (Key, nat), t: seq<(Key, nat)>)
    ensures forall k :: k in Keys(Insert(p, t)) <==> k == p.0 || k in Keys(t)
  {
    if |t| == 0 || t[0].1 <= p.1 {
      KeysCons(p, t);
    } else {
      var u := t[1..];
      var r' := Insert(p, u);
      assert Keys(t) == [t[0].0] + Keys(u);
      InsertKeys(p, u);
      assert Insert(p, t) == [t[0]] + r';
      KeysCons(t[0], r');
    }
  }

  /** Inserting an entry with a new key adds its count to the total and its
      key with that count, and changes no other key's count. */
  lemma InsertCounts(p: (Key, nat), t: seq<(Key, nat)>)
    requires p.0 !in Keys(t)
    ensures Total(Insert(p, t)) == p.1 + Total(t)
    ensures forall k :: Get(Insert(p, t), k) == if k == p.0 then p.1 else Get(t, k)
    ensures forall k :: k in Keys(Insert(p, t)) <==> k == p.0 || k in Keys(t)
  {
    InsertTotal(p, t);
    forall k
      ensures Get(Insert(p, t), k) == if k == p.0 then p.1 else Get(t, k)
    {
      InsertGet(p, t, k);
    }
    InsertKeys(p, t);
  }

  /** Sorting keeps every key's count, the set of keys and the total. */
  lemma {:induction false} SortKeepsCounts(t: seq<(Key, nat)>)
    requires DistinctKeys(t)
    ensures Total(SortByCountDesc(t)) == Total(t)
    ensures forall k :: Get(SortByCountDesc(t), k) == Get(t, k)
    ensures forall k :: k in Keys(SortByCountDesc(t)) <==> k in Keys(t)
  {
    if |t| > 0 {
      SortKeepsCounts(t[1..]);
      SortKeepsCountsStep(t, SortByCountDesc(t[1..]));
    }
  }

  /** Inserting the head of `t` into anything with the counts of its tail
      gives the counts of `t`. */
  lemma SortKeepsCountsStep(t: seq<(Key, nat)>, r: seq<(Key, nat)>)
    requires |t| > 0 && DistinctKeys(t)
    requires Total(r) == Total(t[1..])
    requires forall k :: Get(r, k) == Get(t[1..], k)
    requires forall k :: k in Keys(r) <==> k in Keys(t[1..])
    ensures Total(Insert(t[0], r)) == Total(t)
    ensures forall k :: Get(Insert(t[0], r), k) == Get(t, k)
    ensures forall k :: k in Keys(Insert(t[0], r)) <==> k in Keys(t)
  {
    var u := t[1..];
    assert Keys(t) == [t[0].0] + Keys(u);
    assert t[0].0 !in Keys(u) by {
      assert forall i :: 0 <= i < |u| ==> Keys(u)[i] == t[i + 1].0;
    }
    InsertCounts(t[0], r);
  }

  lemma {:induction false} WithCountHead(t: seq<(Key, nat)>, c: nat)
    requires |WithCount(t, c)| > 0
    ensures exists i :: 0 <= i < |t| && t[i] == WithCount(t, c)[0] && t[i].1 == c &&
                        forall j :: 0 <= j < i ==> t[j].1 != c
  {
    if t[0].1 != c {
      WithCountHead(t[1..], c);
      var i :| 0 <= i < |t[1..]| && t[1..][i] == WithCount(t[1..], c)[0] && t[1..][i].1 == c &&
                forall j :: 0 <= j < i ==> t[1..][j].1 != c;
      assert t[i + 1] == t[1..][i];
      assert forall j :: 0 < j < i + 1 ==> t[j] == t[1..][j - 1];
    } else {
      assert t[0] == WithCount(t, c)[0];
    }
  }

  lemma WithCountOfFirst(s: seq<(Key, nat)>)
    requires |s| > 0
    ensures |WithCount(s, s[0].1)| > 0 && WithCount(s, s[0].1)[0] == s[0]
  {
  }

  /** The first entry after the sort has the largest count, and it is the
      earliest entry of `t` with that count. */
  lemma TopIsEarliestMax(t: seq<(Key, nat)>)
    requires |t| > 0
    ensures var s := SortByCountDesc(t);
      && |s| > 0
      && (forall j :: 0 <= j < |t| ==> t[j].1 <= s[0].1)
      && exists i :: 0 <= i < |t| && t[i] == s[0] && forall j :: 0 <= j < i ==> t[j].1 < s[0].1
  {
    var s := SortByCountDesc(t);
    forall j | 0 <= j < |t|
      ensures t[j].1 <= s[0].1
    {
      assert t[j] in multiset(s);
      var k :| 0 <= k < |s| && s[k] == t[j];
    }
    WithCountOfFirst(s);
    WithCountHead(t, s[0].1);
  }

  /** The first entry after sorting the tally of a non-empty `xs` is a key of
      `xs` with the largest number of occurrences. */
  lemma TallyTopIsMax(xs: seq<Key>)
    requires |xs| > 0
    ensures var s := SortByCountDesc(TallyOf(xs));
      && |s| > 0 && s[0].0 in xs && s[0].1 == Occurrences(xs, s[0].0)
      && forall d :: Occurrences(xs, d) <= s[0].1
  {
    var t := TallyOf(xs);
    TallyOfSpec(xs);
    assert xs[0] in xs;
    assert Keys(t)[0] == t[0].0;
    var s := SortByCountDesc(t);
    TopIsEarliestMax(t);
    var i :| 0 <= i < |t| && t[i] == s[0];
    assert Keys(t)[i] == t[i].0;
    GetOfKey(t, i);
    forall d
      ensures Occurrences(xs, d) <= s[0].1
    {
      if d in xs {
        assert d in Keys(t);
        var j :| 0 <= j < |Keys(t)| && Keys(t)[j] == d;
        GetOfKey(t, j);
      } else {
        OccurrencesOfAbsent(xs, d);
      }
    }
  }

  /** Among the keys with the largest number of occurrences, the first
      entry after sorting is the one seen first. */
  lemma TallyTopIsEarliest(xs: seq<Key>, d: Key)
    requires |xs| > 0 && d in xs
    requires Occurrences(xs, d) == SortByCountDesc(TallyOf(xs))[0].1
    ensures SortByCountDesc(TallyOf(xs))[0].0 in xs
    ensures FirstIndex(xs, SortByCountDesc(TallyOf(xs))[0].0) <= FirstIndex(xs, d)
  {
    var t := TallyOf(xs);
    var s := SortByCountDesc(t);
    TopIsEarliestMax(t);
    var i :| 0 <= i < |t| && t[i] == s[0] && forall j :: 0 <= j < i ==> t[j].1 < s[0].1;
    var j := TallyEntry(xs, d);
    assert t[j].1 == s[0].1;
    assert i <= j;
    if i == j {
      assert s[0].0 == d;
    } else {
      TallyOrderAt(xs, i, j);
    }
  }

  /** The entry of the count dict for a key of `xs`: its position, and its
      count is the key's number of occurrences. */
  lemma TallyEntry(xs: seq<Key>, d: Key) returns (j: nat)
    requires d in xs
    ensures j < |TallyOf(xs)| && TallyOf(xs)[j].0 == d && TallyOf(xs)[j].1 == Occurrences(xs, d)
  {
    var t := TallyOf(xs);
    TallyOfSpec(xs);
    assert d in Keys(t);
    j :| 0 <= j < |Keys(t)| && Keys(t)[j] == d;
    GetOfKey(t, j);
  }

  /** Earlier entries of the count dict are keys seen earlier in `xs`. */
  lemma TallyOrderAt(xs: seq<Key>, i: nat, j: nat)
    requires i < j < |TallyOf(xs)|
    ensures TallyOf(xs)[i].0 in xs && TallyOf(xs)[j].0 in xs
    ensures FirstIndex(xs, TallyOf(xs)[i].0) < FirstIndex(xs, TallyOf(xs)[j].0)
  {
    TallyOfSpec(xs);
  }

  lemma {:induction false} OccurrencesOfAbsent(xs: seq<Key>, k: Key)
    requires k !in xs
    ensures Occurrences(xs, k) == 0
  {
    if |xs| > 0 {
      OccurrencesOfAbsent(xs[..|xs| - 1], k);
    }
  }

  /** A list holding only `k` holds it `|xs|` times. */
  lemma {:induction false} OccurrencesAll(xs: seq<Key>, k: Key)
    requires forall i :: 0 <= i < |xs| ==> xs[i] == k
    ensures Occurrences(xs, k) == |xs|
  {
    if |xs| > 0 {
      OccurrencesAll(xs[..|xs| - 1], k);
    }
  }

  /** Counting a list that holds only `k` gives one entry, `k` with the
      list's length, and sorting leaves it as it is. */
  lemma {:induction false} TallyOfCopies(xs: seq<Key>, k: Key)
    requires |xs| > 0 && forall i :: 0 <= i < |xs| ==> xs[i] == k
    ensures TallyOf(xs) == [(k, |xs|)]
    ensures SortByCountDesc(TallyOf(xs)) == [(k, |xs|)]
  {
    TallyOfCopiesCount(xs, k);
    SortSingle((k, |xs|));
  }

  lemma {:induction false} TallyOfCopiesCount(xs: seq<Key>, k: Key)
    requires |xs| > 0 && forall i :: 0 <= i < |xs| ==> xs[i] == k
    ensures TallyOf(xs) == [(k, |xs|)]
  {
    var front := xs[..|xs| - 1];
    if |front| == 0 {
      assert TallyOf(front) == [];
    } else {
      TallyOfCopiesCount(front, k);
      var one: seq<(Key, nat)> := [(k, |front|)];
      assert |one[1..]| == 0;
      assert Bump(one, k) == [(k, |xs|)];
    }
    assert TallyOf(xs) == Bump(TallyOf(front), k);
  }

  /** A one-entry tally is already sorted. */
  lemma SortSingle(e: (Key, nat))
    ensures SortByCountDesc([e]) == [e]
  {
    var t := [e];
    assert |t[1..]| == 0;
  }

  /** Counting `[x, x, y]` for two different keys gives `x: 2` then `y: 1`,
      already in descending order. */
  lemma TallyTwoOne(x: Key, y: Key)
    requires x != y
    ensures TallyOf([x, x, y]) == [(x, 2), (y, 1)]
    ensures SortByCountDesc(TallyOf([x, x, y])) == [(x, 2), (y, 1)]
  {
    TallyOfTwoOne(x, y);
    SortTwoOne(x, y);
  }

  lemma TallyOfTwoOne(x: Key, y: Key)
    requires x != y
    ensures TallyOf([x, x, y]) == [(x, 2), (y, 1)]
  {
    var xs := [x, x, y];
    assert xs[..2] == [x, x] && xs[..2][..1] == [x] && |[x][..0]| == 0;
    assert TallyOf([x]) == [(x, 1)];
    assert TallyOf([x, x]) == [(x, 2)];
    var two: seq<(Key, nat)> := [(x, 2)];
    assert |two[1..]| == 0;
    assert TallyOf(xs) == Bump(two, y);
  }

  lemma SortTwoOne(x: Key, y: Key)
    ensures SortByCountDesc([(x, 2), (y, 1)]) == [(x, 2), (y, 1)]
  {
    var t: seq<(Key, nat)> := [(x, 2), (y, 1)];
    assert t[1..] == [(y, 1)] && |t[1..][1..]| == 0;
    assert SortByCountDesc([(y, 1)]) == [(y, 1)];
  }
}

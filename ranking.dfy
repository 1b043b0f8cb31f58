/** The host view's frequency ranking: `[k for k, v in Counter(tags).most_common(n)]`.
    `most_common(n)` is a stable sort of the counter's items by count, descending,
    cut to n; the counter keeps its keys in the order they were first met, so ties
    come out in order of first occurrence. */
module Ranking {
  import opened Votes

  function Min(a: nat, b: nat): nat
  {
    if a <= b then a else b
  }

  /** The distinct tags. */
  ghost function Elements(tags: seq<string>): set<string>
  {
    set t | t in tags
  }

  /** Number of occurrences of t in tags. */
  function Count(tags: seq<string>, t: string): nat
  {
    multiset(tags)[t]
  }

  /** Position of the first occurrence of t. */
  function FirstIndex(tags: seq<string>, t: string): (i: nat)
    requires t in tags
    ensures i < |tags| && tags[i] == t && t !in tags[..i]
  {
    if tags[0] == t then 0
    else
      var j := FirstIndex(tags[1..], t);
      assert tags[..j + 1] == [tags[0]] + tags[1..][..j];
      j + 1
  }

  lemma FirstIndexUnique(tags: seq<string>, t: string, i: nat)
    requires i < |tags| && tags[i] == t && t !in tags[..i]
    ensures FirstIndex(tags, t) == i
  {
    var j := FirstIndex(tags, t);
  }

  /** Appending a tag moves no first occurrence. */
  lemma FirstIndexSnoc(s: seq<string>, x: string, t: string)
    requires t in s
    ensures FirstIndex(s + [x], t) == FirstIndex(s, t)
  {
    var i := FirstIndex(s, t);
    assert (s + [x])[..i] == s[..i];
    FirstIndexUnique(s + [x], t, i);
  }

  /** A tag new to s first occurs at the end of s + [x]. */
  lemma FirstIndexSnocNew(s: seq<string>, x: string)
    requires x !in s
    ensures FirstIndex(s + [x], x) == |s|
  {
    assert (s + [x])[..|s|] == s;
    FirstIndexUnique(s + [x], x, |s|);
  }

  /** A `collections.Counter`: its keys in insertion order and the count of each. */
  datatype Counter = Counter(keys: seq<string>, counts: map<string, nat>)

  /** counts holds, for every tag, its number of occurrences. */
  ghost predicate CountsAgree(tags: seq<string>, counts: map<string, nat>)
  {
    forall t :: t in tags ==> t in counts && counts[t] == Count(tags, t)
  }

  /** c is the counter of tags: it has exactly the tags as keys, each with its number
      of occurrences, and lists the keys in order of first occurrence. */
  ghost predicate Tallies(tags: seq<string>, c: Counter)
  {
    && (forall t :: t in c.counts ==> t in tags)
    && CountsAgree(tags, c.counts)
    && (forall t :: t in c.keys <==> t in tags)
    && (forall i, j :: 0 <= i < j < |c.keys| ==> FirstIndex(tags, c.keys[i]) < FirstIndex(tags, c.keys[j]))
  }

  /** One step of `Counter.update`: count one more occurrence of x, adding it as the
      last key if it is new. */
  function Add(c: Counter, x: string): (d: Counter)
    ensures x in d.counts && d.counts[x] == (if x in c.counts then c.counts[x] + 1 else 1)
    ensures forall t :: t != x ==> (t in d.counts <==> t in c.counts)
    ensures forall t :: t != x && t in c.counts ==> d.counts[t] == c.counts[t]
    ensures x in c.counts ==> d.keys == c.keys
    ensures x !in c.counts ==> d.keys == c.keys + [x]
  {
    if x in c.counts then Counter(c.keys, c.counts[x := c.counts[x] + 1])
    else Counter(c.keys + [x], c.counts[x := 1])
  }

  lemma AddCounts(s: seq<string>, c: Counter, x: string)
    requires forall t :: t in c.counts ==> t in s
    requires CountsAgree(s, c.counts)
    ensures forall t :: t in Add(c, x).counts ==> t in s + [x]
    ensures CountsAgree(s + [x], Add(c, x).counts)
  {
    var tags, d := s + [x], Add(c, x);
    assert multiset(tags) == multiset(s) + multiset{x};
    forall t | t in tags
      ensures t in d.counts && d.counts[t] == Count(tags, t)
    {
      if t != x {
        assert t in s;
      }
    }
  }

  lemma AddKeys(s: seq<string>, c: Counter, x: string)
    requires forall t :: t in c.counts <==> t in s
    requires forall t :: t in c.keys <==> t in s
    ensures forall t :: t in Add(c, x).keys <==> t in s + [x]
  {
  }

  /** Adding a tag keeps the keys in order of first occurrence. */
  lemma AddKeysOrdered(s: seq<string>, c: Counter, x: string)
    requires forall t :: t in c.counts <==> t in s
    requires forall t :: t in c.keys ==> t in s
    requires forall i, j :: 0 <= i < j < |c.keys| ==> FirstIndex(s, c.keys[i]) < FirstIndex(s, c.keys[j])
    ensures forall i, j :: 0 <= i < j < |Add(c, x).keys| ==>
              FirstIndex(s + [x], Add(c, x).keys[i]) < FirstIndex(s + [x], Add(c, x).keys[j])
  {
    var tags, d := s + [x], Add(c, x);
    forall i, j | 0 <= i < j < |d.keys|
      ensures FirstIndex(tags, d.keys[i]) < FirstIndex(tags, d.keys[j])
    {
      assert d.keys[i] == c.keys[i];
      FirstIndexSnoc(s, x, c.keys[i]);
      if j < |c.keys| {
        assert d.keys[j] == c.keys[j];
        FirstIndexSnoc(s, x, c.keys[j]);
      } else {
        assert d.keys[j] == x && x !in s;
        FirstIndexSnocNew(s, x);
      }
    }
  }

  lemma AddTallies(s: seq<string>, c: Counter, x: string)
    requires Tallies(s, c)
    ensures Tallies(s + [x], Add(c, x))
  {
    AddCounts(s, c, x);
    AddKeys(s, c, x);
    AddKeysOrdered(s, c, x);
  }

  /** `Counter(tags)`: one pass over the tags, adding a key on its first occurrence
      and incrementing its count on every occurrence. */
  function Tally(tags: seq<string>): (c: Counter)
    ensures Tallies(tags, c)
  {
    if tags == [] then Counter([], map[])
    else
      var s, x := tags[..|tags| - 1], tags[|tags| - 1];
      assert tags == s + [x];
      AddTallies(s, Tally(s), x);
      Add(Tally(s), x)
  }

  /** Stable insertion of k, which came before every entry of `ranked` in the
      counter's key order: k goes in front of the first entry whose count does not
      exceed its own. */
  function Insert(counts: map<string, nat>, k: string, ranked: seq<string>): (r: seq<string>)
    requires k in counts && forall t :: t in ranked ==> t in counts
    ensures multiset(r) == multiset(ranked) + multiset{k}
  {
    if ranked == [] || counts[ranked[0]] <= counts[k] then [k] + ranked
    else
      assert ranked == [ranked[0]] + ranked[1..];
      [ranked[0]] + Insert(counts, k, ranked[1..])
  }

  lemma SameMembers(a: seq<string>, b: seq<string>)
    requires multiset(a) == multiset(b)
    ensures forall t :: t in a ==> t in b
  {
    forall t | t in a
      ensures t in b
    {
      assert t in multiset(a);
    }
  }

  /** `sorted(keys, key=count, reverse=True)`: stable, so equal counts keep key order. */
  function SortByCount(counts: map<string, nat>, keys: seq<string>): (r: seq<string>)
    requires forall t :: t in keys ==> t in counts
    ensures multiset(r) == multiset(keys)
  {
    if keys == [] then []
    else
      var rest := SortByCount(counts, keys[1..]);
      SameMembers(rest, keys[1..]);
      assert keys == [keys[0]] + keys[1..];
      Insert(counts, keys[0], rest)
  }

  /** `[k for k, v in c.most_common(n)]`: the first n keys by descending count. */
  function MostCommon(c: Counter, n: nat): (r: seq<string>)
    requires forall t :: t in c.keys ==> t in c.counts
    ensures |r| == Min(n, |c.keys|)
    ensures forall t :: t in r ==> t in c.keys
  {
    var ranked := SortByCount(c.counts, c.keys);
    SameMembers(ranked, c.keys);
    assert |ranked| == |multiset(ranked)| == |multiset(c.keys)| == |c.keys|;
    if n < |ranked| then ranked[..n] else ranked
  }

  /** The host view's top list: the five most common tags, or [] for no tags. */
  function TopTags(tags: seq<string>): (r: seq<string>)
    ensures |r| <= 5
    ensures forall t :: t in r ==> t in tags
  {
    if tags != [] then MostCommon(Tally(tags), 5) else []
  }

  /** a ranks strictly before b: a occurs more often, or as often and first occurs earlier. */
  ghost predicate Precedes(tags: seq<string>, a: string, b: string)
  {
    && a in tags && b in tags
    && (|| Count(tags, a) > Count(tags, b)
        || (Count(tags, a) == Count(tags, b) && FirstIndex(tags, a) < FirstIndex(tags, b)))
  }

  /** r lists tags, each strictly before every later one. */
  ghost predicate RankedBy(tags: seq<string>, r: seq<string>)
  {
    && (forall t :: t in r ==> t in tags)
    && (forall i, j :: 0 <= i < j < |r| ==> Precedes(tags, r[i], r[j]))
  }

  lemma HeadPrecedesRest(tags: seq<string>, r: seq<string>)
    requires RankedBy(tags, r) && r != []
    ensures RankedBy(tags, r[1..])
    ensures forall t :: t in r[1..] ==> Precedes(tags, r[0], t)
  {
    forall t | t in r[1..]
      ensures Precedes(tags, r[0], t)
    {
      var m :| 0 <= m < |r[1..]| && r[1..][m] == t;
      assert r[m + 1] == t;
    }
    forall i, j | 0 <= i < j < |r[1..]|
      ensures Precedes(tags, r[1..][i], r[1..][j])
    {
      assert r[1..][i] == r[i + 1] && r[1..][j] == r[j + 1];
    }
  }

  lemma PrependRanked(tags: seq<string>, x: string, r: seq<string>)
    requires x in tags && RankedBy(tags, r)
    requires forall t :: t in r ==> Precedes(tags, x, t)
    ensures RankedBy(tags, [x] + r)
  {
    var xr := [x] + r;
    forall i, j | 0 <= i < j < |xr|
      ensures Precedes(tags, xr[i], xr[j])
    {
      assert xr[j] == r[j - 1];
      if i == 0 {
        assert r[j - 1] in r;
      } else {
        assert xr[i] == r[i - 1];
      }
    }
  }

  lemma {:induction false} InsertRanked(tags: seq<string>, c: Counter, k: string, ranked: seq<string>)
    requires CountsAgree(tags, c.counts)
    requires k in tags && RankedBy(tags, ranked)
    requires forall t :: t in ranked ==> FirstIndex(tags, k) < FirstIndex(tags, t)
    ensures RankedBy(tags, Insert(c.counts, k, ranked))
  {
    if ranked == [] {
    } else if c.counts[ranked[0]] <= c.counts[k] {
      HeadPrecedesRest(tags, ranked);
      forall t | t in ranked
        ensures Precedes(tags, k, t)
      {
        assert Count(tags, t) <= Count(tags, ranked[0]);
      }
      PrependRanked(tags, k, ranked);
    } else {
      HeadPrecedesRest(tags, ranked);
      InsertRanked(tags, c, k, ranked[1..]);
      var rest := Insert(c.counts, k, ranked[1..]);
      forall t | t in rest
        ensures Precedes(tags, ranked[0], t)
      {
        assert t in multiset(rest);
        if t != k {
          assert t in ranked[1..];
        }
      }
      PrependRanked(tags, ranked[0], rest);
    }
  }

  lemma {:induction false} SortRanked(tags: seq<string>, c: Counter, keys: seq<string>)
    requires Tallies(tags, c)
    requires forall t :: t in keys ==> t in tags
    requires forall i, j :: 0 <= i < j < |keys| ==> FirstIndex(tags, keys[i]) < FirstIndex(tags, keys[j])
    ensures RankedBy(tags, SortByCount(c.counts, keys))
  {
    if keys != [] {
      var tail := keys[1..];
      forall i, j | 0 <= i < j < |tail|
        ensures FirstIndex(tags, tail[i]) < FirstIndex(tags, tail[j])
      {
        assert tail[i] == keys[i + 1] && tail[j] == keys[j + 1];
      }
      SortRanked(tags, c, tail);
      var rest := SortByCount(c.counts, tail);
      forall t | t in rest
        ensures FirstIndex(tags, keys[0]) < FirstIndex(tags, t)
      {
        assert t in multiset(rest);
        var m :| 0 <= m < |tail| && tail[m] == t;
        assert keys[m + 1] == t;
      }
      InsertRanked(tags, c, keys[0], rest);
    }
  }

  lemma {:induction false} CardOfDistinct(s: seq<string>)
    requires forall i, j :: 0 <= i < j < |s| ==> s[i] != s[j]
    ensures |Elements(s)| == |s|
  {
    if s != [] {
      var tail := s[1..];
      forall i, j | 0 <= i < j < |tail|
        ensures tail[i] != tail[j]
      {
        assert tail[i] == s[i + 1] && tail[j] == s[j + 1];
      }
      CardOfDistinct(tail);
      assert s[0] !in tail;
      assert Elements(s) == {s[0]} + Elements(tail);
    }
  }

  /** A counter has one key per distinct tag. */
  lemma KeysCard(tags: seq<string>, c: Counter)
    requires Tallies(tags, c)
    ensures |c.keys| == |Elements(tags)|
  {
    forall i, j | 0 <= i < j < |c.keys|
      ensures c.keys[i] != c.keys[j]
    {
      assert FirstIndex(tags, c.keys[i]) < FirstIndex(tags, c.keys[j]);
    }
    CardOfDistinct(c.keys);
    assert Elements(c.keys) == Elements(tags);
  }

  /** The counter's keys, sorted by count: every distinct tag once, ranked. */
  lemma SortedKeysSpec(tags: seq<string>, c: Counter)
    requires Tallies(tags, c)
    ensures var s := SortByCount(c.counts, c.keys);
      && |s| == |Elements(tags)|
      && (forall t :: t in tags ==> t in s)
      && RankedBy(tags, s)
  {
    var s := SortByCount(c.counts, c.keys);
    SortRanked(tags, c, c.keys);
    KeysCard(tags, c);
    assert |s| == |multiset(s)| == |multiset(c.keys)| == |c.keys|;
    forall t | t in tags
      ensures t in s
    {
      assert t in multiset(c.keys);
    }
  }

  /** Cutting a ranked list keeps it ranked, and what was cut ranks after what was kept. */
  lemma TakeRanked(tags: seq<string>, s: seq<string>, k: nat)
    requires RankedBy(tags, s) && k <= |s|
    ensures RankedBy(tags, s[..k])
    ensures forall t, i :: t in s && t !in s[..k] && 0 <= i < k ==> Precedes(tags, s[..k][i], t)
  {
    var r := s[..k];
    forall i, j | 0 <= i < j < |r|
      ensures Precedes(tags, r[i], r[j])
    {
      assert r[i] == s[i] && r[j] == s[j];
    }
    forall t, i | t in s && t !in r && 0 <= i < k
      ensures Precedes(tags, r[i], t)
    {
      forall m | 0 <= m < k
        ensures s[m] != t
      {
        assert r[m] == s[m];
      }
      var m :| 0 <= m < |s| && s[m] == t;
      assert r[i] == s[i];
    }
  }

  /** The first min(n, |s|) entries of a ranked list of all distinct tags. */
  lemma RankedPrefixSpec(tags: seq<string>, s: seq<string>, n: nat)
    requires |s| == |Elements(tags)| && RankedBy(tags, s)
    requires forall t :: t in tags ==> t in s
    ensures var r := s[..Min(n, |s|)];
      && |r| == Min(n, |Elements(tags)|)
      && RankedBy(tags, r)
      && (forall i, j :: 0 <= i < j < |r| ==> r[i] != r[j])
      && (forall t, i :: t in tags && t !in r && 0 <= i < |r| ==> Precedes(tags, r[i], t))
  {
    var r := s[..Min(n, |s|)];
    TakeRanked(tags, s, Min(n, |s|));
    forall i, j | 0 <= i < j < |r|
      ensures r[i] != r[j]
    {
      assert Precedes(tags, r[i], r[j]);
    }
  }

  lemma MostCommonIsPrefix(c: Counter, n: nat)
    requires forall t :: t in c.keys ==> t in c.counts
    ensures var s := SortByCount(c.counts, c.keys);
      MostCommon(c, n) == s[..Min(n, |s|)]
  {
  }

  /** What `most_common(n)` promises: min(n, #distinct) entries, all tags of the
      input and none twice, strictly ranked by count and then by first occurrence,
      and every tag left out ranks after every tag listed. */
  lemma MostCommonSpec(tags: seq<string>, n: nat)
    ensures var r := MostCommon(Tally(tags), n);
      && |r| == Min(n, |Elements(tags)|)
      && RankedBy(tags, r)
      && (forall i, j :: 0 <= i < j < |r| ==> r[i] != r[j])
      && (forall t, i :: t in tags && t !in r && 0 <= i < |r| ==> Precedes(tags, r[i], t))
  {
    var c := Tally(tags);
    var s := SortByCount(c.counts, c.keys);
    SortedKeysSpec(tags, c);
    RankedPrefixSpec(tags, s, n);
    MostCommonIsPrefix(c, n);
  }

  /** The host view's guarded top list: at most five distinct tags of the input,
      ranked, none left out that outranks one listed; nothing for no tags. */
  lemma TopTagsSpec(tags: seq<string>)
    ensures var r := TopTags(tags);
      && |r| == Min(5, |Elements(tags)|)
      && (tags == [] <==> r == [])
      && RankedBy(tags, r)
      && (forall i, j :: 0 <= i < j < |r| ==> r[i] != r[j])
      && (forall t :: t in tags && t !in r && r != [] ==> Count(tags, t) <= Count(tags, r[|r| - 1]))
  {
    MostCommonSpec(tags, 5);
    if tags != [] {
      assert tags[0] in Elements(tags);
    }
  }

  /** r is a top-n list of tags: as long as most_common(n)'s result, strictly ranked,
      and no tag left out outranks a listed one. */
  ghost predicate IsTopN(tags: seq<string>, n: nat, r: seq<string>)
  {
    && |r| == Min(n, |Elements(tags)|)
    && RankedBy(tags, r)
    && (forall t, u :: t in tags && t !in r && u in r ==> Precedes(tags, u, t))
  }

  lemma PrecedesAsymmetric(tags: seq<string>, a: string, b: string)
    ensures !(Precedes(tags, a, b) && Precedes(tags, b, a))
  {
  }

  lemma RankedDistinct(tags: seq<string>, r: seq<string>)
    requires RankedBy(tags, r)
    ensures |Elements(r)| == |r|
  {
    forall i, j | 0 <= i < j < |r|
      ensures r[i] != r[j]
    {
      assert Precedes(tags, r[i], r[j]);
    }
    CardOfDistinct(r);
  }

  lemma SubsetCard(a: set<string>, b: set<string>)
    requires a <= b
    ensures |a| <= |b|
  {
    assert b == a + (b - a);
  }

  /** Two top-n lists of the same tags list the same tags. */
  lemma TopNSameTags(tags: seq<string>, n: nat, r1: seq<string>, r2: seq<string>)
    requires IsTopN(tags, n, r1) && IsTopN(tags, n, r2)
    ensures forall x :: x in r1 ==> x in r2
  {
    forall x | x in r1
      ensures x in r2
    {
      if x !in r2 {
        var s1, s2 := Elements(r1), Elements(r2);
        forall y | y in r2
          ensures y in r1
        {
          PrecedesAsymmetric(tags, x, y);
        }
        RankedDistinct(tags, r1);
        RankedDistinct(tags, r2);
        assert s2 + {x} <= s1;
        assert |s2 + {x}| == |r2| + 1;
        SubsetCard(s2 + {x}, s1);
      }
    }
  }

  /** Two lists strictly ranked by the same order and holding the same tags are equal. */
  lemma {:induction false} RankedSameTagsEqual(tags: seq<string>, r1: seq<string>, r2: seq<string>)
    requires RankedBy(tags, r1) && RankedBy(tags, r2)
    requires forall x :: x in r1 <==> x in r2
    ensures r1 == r2
  {
    assert r1 != [] ==> r1[0] in r2;
    assert r2 != [] ==> r2[0] in r1;
    if r1 != [] {
      HeadPrecedesRest(tags, r1);
      HeadPrecedesRest(tags, r2);
      assert r1 == [r1[0]] + r1[1..] && r2 == [r2[0]] + r2[1..];
      PrecedesAsymmetric(tags, r1[0], r2[0]);
      assert r1[0] == r2[0];
      forall x
        ensures x in r1[1..] <==> x in r2[1..]
      {
        if x in r1[1..] {
          assert Precedes(tags, r1[0], x) && x in r1;
          assert x in r2;
        }
        if x in r2[1..] {
          assert Precedes(tags, r2[0], x) && x in r2;
          assert x in r1;
        }
      }
      RankedSameTagsEqual(tags, r1[1..], r2[1..]);
      assert r1 == [r2[0]] + r2[1..];
    }
  }

  /** The properties of MostCommonSpec determine the result: any top-n list of the
      tags is the one most_common(n) returns. */
  lemma TopNUnique(tags: seq<string>, n: nat, r: seq<string>)
    requires IsTopN(tags, n, r)
    ensures r == MostCommon(Tally(tags), n)
  {
    var m := MostCommon(Tally(tags), n);
    MostCommonSpec(tags, n);
    forall t, u | t in tags && t !in m && u in m
      ensures Precedes(tags, u, t)
    {
      var i :| 0 <= i < |m| && m[i] == u;
    }
    assert IsTopN(tags, n, m);
    TopNSameTags(tags, n, r, m);
    TopNSameTags(tags, n, m, r);
    RankedSameTagsEqual(tags, r, m);
  }

  lemma ExampleCounts(tags: seq<string>)
    requires tags == ["a", "b", "a", "c", "b", "a"]
    ensures Count(tags, "a") == 3 && Count(tags, "b") == 2 && Count(tags, "c") == 1
  {
    var m := multiset(tags);
    assert m == multiset{"a"} + multiset{"b"} + multiset{"a"} + multiset{"c"} + multiset{"b"} + multiset{"a"};
  }

  lemma ExampleRanks(tags: seq<string>)
    requires tags == ["a", "b", "a", "c", "b", "a"]
    ensures Elements(tags) == {"a", "b", "c"}
    ensures Precedes(tags, "a", "b") && Precedes(tags, "a", "c") && Precedes(tags, "b", "c")
  {
    ExampleCounts(tags);
  }

  lemma ExampleIsTopN(tags: seq<string>)
    requires tags == ["a", "b", "a", "c", "b", "a"]
    ensures IsTopN(tags, 2, ["a", "b"])
  {
    ExampleRanks(tags);
    var r := ["a", "b"];
    assert |Elements(tags)| == 3;
    assert RankedBy(tags, r);
    forall t, u | t in tags && t !in r && u in r
      ensures Precedes(tags, u, t)
    {
      assert t == "c" && (u == "a" || u == "b");
    }
  }

  /** `Counter(["a","b","a","c","b","a"]).most_common(2)` lists "a" (three times)
      before "b" (twice). */
  lemma MostCommonExample(tags: seq<string>)
    requires tags == ["a", "b", "a", "c", "b", "a"]
    ensures MostCommon(Tally(tags), 2) == ["a", "b"]
  {
    ExampleIsTopN(tags);
    TopNUnique(tags, 2, ["a", "b"]);
  }

  /** How often tag t is among what `f` extracts, counted record by record. */
  function Occurrences(rs: seq<VoteRecord>, f: VoteRecord -> seq<string>, t: string): nat
  {
    if rs == [] then 0 else Count(f(rs[0]), t) + Occurrences(rs[1..], f, t)
  }

  /** The count the ranking sees for a tag in the flattened votes is the sum of its
      counts in the individual votes. */
  lemma {:induction false} FlatMapCount(rs: seq<VoteRecord>, f: VoteRecord -> seq<string>, t: string)
    ensures Count(FlatMap(rs, f), t) == Occurrences(rs, f, t)
  {
    if rs != [] {
      FlatMapCount(rs[1..], f, t);
      assert multiset(FlatMap(rs, f)) == multiset(f(rs[0])) + multiset(FlatMap(rs[1..], f));
    }
  }

  /** Wherever a new vote lands in the read order, every tag's count in the
      flattened votes grows by exactly its count in that vote. */
  lemma InsertedVoteCounts(rs: seq<VoteRecord>, pos: nat, d: VoteRecord, f: VoteRecord -> seq<string>, t: string)
    requires pos <= |rs|
    ensures Count(FlatMap(rs[..pos] + [d] + rs[pos..], f), t) == Count(FlatMap(rs, f), t) + Count(f(d), t)
  {
    InsertedVoteIsRead(rs, pos, d, f);
    PartialReadIsPrefix(rs, pos, f);
    var a, b := FlatMap(rs[..pos], f), FlatMap(rs[pos..], f);
    assert multiset(a + f(d) + b) == multiset(a) + multiset(f(d)) + multiset(b);
    assert multiset(a + b) == multiset(a) + multiset(b);
  }
}

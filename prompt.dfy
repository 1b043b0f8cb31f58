/** The host view's poem prompt: a fixed German template over the celebrant's name
    and age, the comma-joined top lists and a segment of sampled insider notes. */
module Prompt {
  import opened Ranking

  /** `sep.join(xs)`. */
  function Join(xs: seq<string>, sep: string): (r: string)
    ensures xs == [] ==> r == ""
    ensures xs != [] ==> xs[0] <= r
    ensures xs != [] ==> var l := xs[|xs| - 1]; |l| <= |r| && r[|r| - |l|..] == l
  {
    if xs == [] then ""
    else if |xs| == 1 then xs[0]
    else xs[0] + sep + Join(xs[1..], sep)
  }

  /** p occurs in s starting at position i. */
  ghost predicate OccursAt(s: string, p: string, i: nat)
  {
    i + |p| <= |s| && s[i..i + |p|] == p
  }

  /** p occurs in s as a contiguous substring. */
  ghost predicate Contains(s: string, p: string)
  {
    exists i :: OccursAt(s, p, i)
  }

  lemma ContainsMiddle(a: string, p: string, b: string)
    ensures Contains(a + p + b, p)
  {
    assert (a + p + b)[|a|..|a| + |p|] == p;
    assert OccursAt(a + p + b, p, |a|);
  }

  lemma ContainsTrans(s: string, p: string, q: string)
    requires Contains(s, p) && Contains(p, q)
    ensures Contains(s, q)
  {
    var i: nat :| OccursAt(s, p, i);
    var j: nat :| OccursAt(p, q, j);
    var t := s[i + j..i + j + |q|];
    forall k | 0 <= k < |q|
      ensures t[k] == q[k]
    {
      assert s[i..i + |p|][j + k] == s[i + j + k];
      assert p[j..j + |q|][k] == p[j + k];
    }
    assert t == q;
    assert OccursAt(s, q, i + j);
  }

  /** Every listed element appears verbatim in the joined string. */
  lemma {:induction false} JoinContains(xs: seq<string>, sep: string, k: nat)
    requires k < |xs|
    ensures Contains(Join(xs, sep), xs[k])
  {
    if |xs| == 1 {
      ContainsMiddle("", xs[0], "");
      assert "" + xs[0] + "" == xs[0];
    } else if k == 0 {
      ContainsMiddle("", xs[0], sep + Join(xs[1..], sep));
      assert xs[0] + sep + Join(xs[1..], sep) == "" + xs[0] + (sep + Join(xs[1..], sep));
    } else {
      JoinContains(xs[1..], sep, k - 1);
      ContainsMiddle(xs[0] + sep, Join(xs[1..], sep), "");
      assert Join(xs, sep) == xs[0] + sep + Join(xs[1..], sep) + "";
      ContainsTrans(Join(xs, sep), Join(xs[1..], sep), xs[k]);
    }
  }

  /** Joining one more element appends the separator and that element. */
  lemma {:induction false} JoinSnoc(xs: seq<string>, sep: string, x: string)
    requires xs != []
    ensures Join(xs + [x], sep) == Join(xs, sep) + sep + x
  {
    var ys := xs + [x];
    assert ys[0] == xs[0] && ys[1..] == xs[1..] + [x];
    if |xs| > 1 {
      JoinSnoc(xs[1..], sep, x);
      calc {
        Join(ys, sep);
        xs[0] + sep + Join(xs[1..] + [x], sep);
        xs[0] + sep + (Join(xs[1..], sep) + sep + x);
        (xs[0] + sep + Join(xs[1..], sep)) + sep + x;
      }
    } else {
      assert ys[1..] == [x];
    }
  }

  /** The pieces of a template, one after another. */
  function Concat(parts: seq<string>): string
  {
    if parts == [] then "" else parts[0] + Concat(parts[1..])
  }

  /** Every piece appears verbatim in the whole. */
  lemma {:induction false} ConcatContains(parts: seq<string>, k: nat)
    requires k < |parts|
    ensures Contains(Concat(parts), parts[k])
  {
    if k == 0 {
      ContainsMiddle("", parts[0], Concat(parts[1..]));
      assert "" + parts[0] + Concat(parts[1..]) == Concat(parts);
    } else {
      ConcatContains(parts[1..], k - 1);
      ContainsMiddle(parts[0], Concat(parts[1..]), "");
      assert parts[0] + Concat(parts[1..]) + "" == Concat(parts);
      ContainsTrans(Concat(parts), Concat(parts[1..]), parts[k]);
    }
  }

  /** The whole ends with the last piece. */
  lemma {:induction false} ConcatEndsWithLast(parts: seq<string>)
    requires parts != []
    ensures var c := Concat(parts); var l := parts[|parts| - 1];
      |l| <= |c| && c[|c| - |l|..] == l
  {
    if |parts| > 1 {
      ConcatEndsWithLast(parts[1..]);
    }
  }

  function DigitChar(d: nat): char
    requires d < 10
  {
    ('0' as int + d) as char
  }

  /** `f"{n}"` for a non-negative integer: its decimal digits, no leading zero. */
  function NatToString(n: nat): (s: string)
    ensures |s| >= 1 && (|s| > 1 ==> s[0] != '0')
    ensures forall i :: 0 <= i < |s| ==> '0' <= s[i] <= '9'
  {
    if n < 10 then [DigitChar(n)] else NatToString(n / 10) + [DigitChar(n % 10)]
  }

  /** The number a string of decimal digits denotes. */
  function DecimalValue(s: string): nat
    requires forall i :: 0 <= i < |s| ==> '0' <= s[i] <= '9'
  {
    if s == [] then 0
    else DecimalValue(s[..|s| - 1]) * 10 + (s[|s| - 1] as int - '0' as int)
  }

  /** The age text reads back as the age. */
  lemma {:induction false} DecimalRoundTrip(n: nat)
    ensures DecimalValue(NatToString(n)) == n
  {
    if n >= 10 {
      DecimalRoundTrip(n / 10);
      var s := NatToString(n);
      assert s[..|s| - 1] == NatToString(n / 10);
    }
  }

  /** `random.sample(insiders, min(3, len(insiders)))`, drawn by the caller: the
      positions picked, min(3, |insiders|) of them, all different. */
  predicate IsSample(insiders: seq<string>, picks: seq<nat>)
  {
    && |picks| == Min(3, |insiders|)
    && (forall i :: 0 <= i < |picks| ==> picks[i] < |insiders|)
    && (forall i, j :: 0 <= i < j < |picks| ==> picks[i] != picks[j])
  }

  function Sample(insiders: seq<string>, picks: seq<nat>): (r: seq<string>)
    requires forall i :: 0 <= i < |picks| ==> picks[i] < |insiders|
    ensures |r| == |picks|
    ensures forall s :: s in r ==> s in insiders
  {
    seq(|picks|, i requires 0 <= i < |picks| => insiders[picks[i]])
  }

  /** The insider segment: "" without notes, else "Details: " and the sampled notes. */
  function InsiderText(insiders: seq<string>, picks: seq<nat>): (r: string)
    requires IsSample(insiders, picks)
    ensures r == "" <==> insiders == []
    ensures insiders != [] ==> "Details: " <= r && r[|r| - 1] == '.'
  {
    if insiders != [] then "Details: " + Join(Sample(insiders, picks), ", ") + "." else ""
  }

  /** The pieces of the prompt f-string, in order, with its literal text as written
      (so a non-empty insider segment's own full stop is followed by the template's). */
  function PromptParts(name: string, age: nat, topProps: seq<string>, topWishes: seq<string>,
                       insiderText: string): seq<string>
  {
    ["Gedicht für ", name, " (", NatToString(age), "). Eigenschaften: ", Join(topProps, ", "),
     ". Wünsche: ", Join(topWishes, ", "), ". ", insiderText, ". Reimschema AABB."]
  }

  /** The prompt opens with "Gedicht für " and closes with the rhyme-scheme
      directive, and names the celebrant, the age, both joined top lists and the
      insider segment. */
  function Compose(name: string, age: nat, topProps: seq<string>, topWishes: seq<string>,
                   insiderText: string): (p: string)
    ensures "Gedicht für " <= p
    ensures |". Reimschema AABB."| <= |p| && p[|p| - |". Reimschema AABB."|..] == ". Reimschema AABB."
    ensures Contains(p, name)
    ensures Contains(p, NatToString(age))
    ensures Contains(p, Join(topProps, ", "))
    ensures Contains(p, Join(topWishes, ", "))
    ensures Contains(p, insiderText)
  {
    var parts := PromptParts(name, age, topProps, topWishes, insiderText);
    ConcatContains(parts, 1);
    ConcatContains(parts, 3);
    ConcatContains(parts, 5);
    ConcatContains(parts, 7);
    ConcatContains(parts, 9);
    ConcatEndsWithLast(parts);
    Concat(parts)
  }

  /** The prompt the host view builds from the votes read. */
  function HostPrompt(name: string, age: nat, props: seq<string>, wishes: seq<string>,
                      insiders: seq<string>, picks: seq<nat>): string
    requires IsSample(insiders, picks)
  {
    Compose(name, age, TopTags(props), TopTags(wishes), InsiderText(insiders, picks))
  }

  /** Leaving out the k-th pick removes exactly one copy of that note from the sample. */
  lemma SampleRemove(insiders: seq<string>, picks: seq<nat>, k: nat)
    requires forall i :: 0 <= i < |picks| ==> picks[i] < |insiders|
    requires k < |picks|
    ensures var rest := picks[..k] + picks[k + 1..];
      && (forall i :: 0 <= i < |rest| ==> rest[i] < |insiders|)
      && multiset(Sample(insiders, picks)) == multiset(Sample(insiders, rest)) + multiset{insiders[picks[k]]}
  {
    var rest := picks[..k] + picks[k + 1..];
    var whole := Sample(insiders, picks);
    assert whole == Sample(insiders, picks[..k]) + [insiders[picks[k]]] + Sample(insiders, picks[k + 1..]);
    assert Sample(insiders, rest) == Sample(insiders, picks[..k]) + Sample(insiders, picks[k + 1..]);
  }

  /** Picks that all fall in a prefix sample the same notes from the prefix. */
  lemma SampleFront(insiders: seq<string>, n: nat, picks: seq<nat>)
    requires n <= |insiders|
    requires forall i :: 0 <= i < |picks| ==> picks[i] < n
    ensures Sample(insiders, picks) == Sample(insiders[..n], picks)
  {
  }

  /** `random.sample` draws without replacement: given distinct positions, the
      sample takes each note at most as often as the notes hold it. */
  lemma {:induction false} SampleSubBag(insiders: seq<string>, picks: seq<nat>)
    requires forall i :: 0 <= i < |picks| ==> picks[i] < |insiders|
    requires forall i, j :: 0 <= i < j < |picks| ==> picks[i] != picks[j]
    ensures multiset(Sample(insiders, picks)) <= multiset(insiders)
    decreases |insiders|
  {
    if picks != [] {
      assert picks[0] < |insiders|;
      var n := |insiders| - 1;
      var front := insiders[..n];
      assert multiset(insiders) == multiset(front) + multiset{insiders[n]} by {
        assert insiders == front + [insiders[n]];
      }
      if k :| 0 <= k < |picks| && picks[k] == n {
        var rest := picks[..k] + picks[k + 1..];
        SampleRemove(insiders, picks, k);
        DistinctRemove(picks, k);
        SampleFront(insiders, n, rest);
        SampleSubBag(front, rest);
      } else {
        SampleFront(insiders, n, picks);
        SampleSubBag(front, picks);
      }
    }
  }

  /** Removing one of several distinct positions keeps the rest distinct and apart from it. */
  lemma DistinctRemove(picks: seq<nat>, k: nat)
    requires k < |picks|
    requires forall i, j :: 0 <= i < j < |picks| ==> picks[i] != picks[j]
    ensures var rest := picks[..k] + picks[k + 1..];
      && (forall i, j :: 0 <= i < j < |rest| ==> rest[i] != rest[j])
      && (forall i :: 0 <= i < |rest| ==> rest[i] != picks[k] && rest[i] in picks)
  {
    var rest := picks[..k] + picks[k + 1..];
    forall i | 0 <= i < |rest|
      ensures rest[i] == picks[if i < k then i else i + 1]
    {
    }
  }

  /** The insider segment names every sampled note, and the sample repeats no note
      more often than the notes hold it. */
  lemma InsiderTextSpec(insiders: seq<string>, picks: seq<nat>)
    requires IsSample(insiders, picks)
    ensures forall i :: 0 <= i < |picks| ==> Contains(InsiderText(insiders, picks), insiders[picks[i]])
    ensures multiset(Sample(insiders, picks)) <= multiset(insiders)
  {
    var r := InsiderText(insiders, picks);
    var sample := Sample(insiders, picks);
    forall i | 0 <= i < |picks|
      ensures Contains(r, insiders[picks[i]])
    {
      JoinContains(sample, ", ", i);
      ContainsMiddle("Details: ", Join(sample, ", "), ".");
      ContainsTrans(r, Join(sample, ", "), sample[i]);
    }
    SampleSubBag(insiders, picks);
  }

  /** Whatever the votes, the host prompt names the celebrant, the age, every top
      property, every top wish and every sampled insider note. */
  lemma HostPromptMentions(name: string, age: nat, props: seq<string>, wishes: seq<string>,
                           insiders: seq<string>, picks: seq<nat>)
    requires IsSample(insiders, picks)
    ensures var p := HostPrompt(name, age, props, wishes, insiders, picks);
      && Contains(p, name)
      && Contains(p, NatToString(age))
      && (forall t :: t in TopTags(props) ==> Contains(p, t))
      && (forall t :: t in TopTags(wishes) ==> Contains(p, t))
      && (forall i :: 0 <= i < |picks| ==> Contains(p, insiders[picks[i]]))
  {
    var tp, tw, it := TopTags(props), TopTags(wishes), InsiderText(insiders, picks);
    var p := HostPrompt(name, age, props, wishes, insiders, picks);
    InsiderTextSpec(insiders, picks);
    forall t | t in tp
      ensures Contains(p, t)
    {
      var k :| 0 <= k < |tp| && tp[k] == t;
      JoinContains(tp, ", ", k);
      ContainsTrans(p, Join(tp, ", "), t);
    }
    forall t | t in tw
      ensures Contains(p, t)
    {
      var k :| 0 <= k < |tw| && tw[k] == t;
      JoinContains(tw, ", ", k);
      ContainsTrans(p, Join(tw, ", "), t);
    }
    forall i | 0 <= i < |picks|
      ensures Contains(p, insiders[picks[i]])
    {
      ContainsTrans(p, it, insiders[picks[i]]);
    }
  }
}

/** The quiz classifier, `calculateQuizResult`: tally the answers' type tags
    into a count per tag, sort the tallies by count, descending, with a stable
    sort, and look the first tag up in the catalog.

    The JavaScript tally is an object used as a dictionary. Its keys (the tags
    are words, never integer-like strings) are enumerated by `Object.entries`
    in the order they were first inserted, so it is modelled as a map from
    tag to count together with that insertion order. */
module Classifier {
  import opened Wrappers
  import opened Catalog

  /** The `typeCounts` object: `counts` holds the values, `order` the keys in
      insertion order. */
  datatype Scores = Scores(counts: map<string, nat>, order: seq<string>)

  /** One `[tag, count]` pair of `Object.entries(typeCounts)`. */
  datatype Entry = Entry(tag: string, count: nat)

  datatype QuizResult = QuizResult(primaryType: Option<CustomerType>, scores: Scores)

  /** `[0][0]` on an empty entry list throws a TypeError: the only way
      `calculateQuizResult` fails. */
  datatype QuizError = NoAnswers

  // ---------------------------------------------------------------------
  // Reference definitions

  /** How often `t` occurs among the answers. */
  function Occurrences(answers: seq<string>, t: string): nat
  {
    multiset(answers)[t]
  }

  ghost predicate Distinct(s: seq<string>)
  {
    forall i, j :: 0 <= i < j < |s| ==> s[i] != s[j]
  }

  /** The index of the first occurrence of `t` in `s`. */
  function FirstIndex(s: seq<string>, t: string): (k: nat)
    requires t in s
    ensures k < |s| && s[k] == t
    ensures forall j :: 0 <= j < k ==> s[j] != t
  {
    if s[0] == t then 0 else 1 + FirstIndex(s[1..], t)
  }

  /** The distinct tags of `s`, each where it first occurs. */
  function FirstSeen(s: seq<string>): (r: seq<string>)
    ensures forall t :: t in r <==> t in s
    ensures Distinct(r)
  {
    if s == [] then []
    else
      var seen := FirstSeen(s[..|s| - 1]);
      if s[|s| - 1] in seen then seen else seen + [s[|s| - 1]]
  }

  /** The tally `calculateQuizResult` must build: every tag of the answers
      counted, no other key, keys in first-occurrence order. */
  function ScoresOf(answers: seq<string>): Scores
  {
    Scores(CountsOf(answers), FirstSeen(answers))
  }

  /** Each tag of the answers mapped to its number of occurrences. */
  function CountsOf(answers: seq<string>): map<string, nat>
  {
    map t | t in answers :: Occurrences(answers, t)
  }

  /** Tag `t` is the primary type of `answers`: it occurs, no tag occurs
      more often, and of the tags that occur as often, `t` occurs first. */
  ghost predicate IsDominant(answers: seq<string>, t: string)
  {
    t in answers &&
    (forall u :: u in answers ==> Occurrences(answers, u) <= Occurrences(answers, t)) &&
    (forall u :: u in answers && Occurrences(answers, u) == Occurrences(answers, t) ==>
       FirstIndex(answers, t) <= FirstIndex(answers, u))
  }

  lemma {:induction false} FirstSeenOrdered(s: seq<string>, i: int, j: int)
    requires 0 <= i < j < |FirstSeen(s)|
    ensures FirstIndex(s, FirstSeen(s)[i]) < FirstIndex(s, FirstSeen(s)[j])
  {
    var p := s[..|s| - 1];
    var x := s[|s| - 1];
    assert s == p + [x];
    var seen := FirstSeen(p);
    if j < |seen| {
      FirstSeenOrdered(p, i, j);
      FirstIndexExtend(p, x, seen[i]);
      FirstIndexExtend(p, x, seen[j]);
    } else {
      // the last tag of the list is new: it first occurs at the end of s
      assert FirstSeen(s)[j] == x && x !in p;
      FirstIndexExtend(p, x, seen[i]);
    }
  }

  lemma FirstIndexExtend(p: seq<string>, x: string, t: string)
    requires t in p
    ensures FirstIndex(p + [x], t) == FirstIndex(p, t)
  {
    var k := FirstIndex(p + [x], t);
    var k' := FirstIndex(p, t);
    assert (p + [x])[k'] == t;  // so k <= k' < |p|
    assert (p + [x])[k] == p[k];
  }

  // ---------------------------------------------------------------------
  // The tally loop, `answers.forEach(type => typeCounts[type] = (typeCounts[type] || 0) + 1)`

  method Tally(answers: seq<string>) returns (scores: Scores)
    ensures scores == ScoresOf(answers)
  {
    var counts: map<string, nat> := map[];
    var order: seq<string> := [];
    for i := 0 to |answers|
      invariant counts == CountsOf(answers[..i])
      invariant order == FirstSeen(answers[..i])
    {
      var tag := answers[i];
      // a new key is enumerated after the existing ones
      var order' := if tag in counts then order else order + [tag];
      var counts' := counts[tag := (if tag in counts then counts[tag] else 0) + 1];
      assert counts' == CountsOf(answers[..i + 1]) && order' == FirstSeen(answers[..i + 1]) by {
        TallyPrefixStep(answers, i);
      }
      counts, order := counts', order';
    }
    scores := Scores(counts, order);
    assert scores == ScoresOf(answers) by {
      assert answers[..|answers|] == answers;
    }
  }

  /** Counting one more answer `x` bumps its count, or adds it as a new
      last key with count 1. */
  lemma TallyStep(p: seq<string>, x: string)
    ensures ScoresOf(p + [x]).order ==
      if x in ScoresOf(p).counts then ScoresOf(p).order else ScoresOf(p).order + [x]
    ensures ScoresOf(p + [x]).counts ==
      ScoresOf(p).counts[x := (if x in ScoresOf(p).counts then ScoresOf(p).counts[x] else 0) + 1]
  {
    var a := p + [x];
    assert a[..|a| - 1] == p;
    TallyCountsStep(p, x);
  }

  /** `TallyStep` for the answer at index `i`, stated over prefixes. */
  lemma TallyPrefixStep(answers: seq<string>, i: nat)
    requires i < |answers|
    ensures FirstSeen(answers[..i + 1]) ==
      if answers[i] in CountsOf(answers[..i]) then FirstSeen(answers[..i]) else FirstSeen(answers[..i]) + [answers[i]]
    ensures CountsOf(answers[..i + 1]) ==
      CountsOf(answers[..i])[answers[i] := (if answers[i] in CountsOf(answers[..i]) then CountsOf(answers[..i])[answers[i]] else 0) + 1]
  {
    assert answers[..i + 1] == answers[..i] + [answers[i]];
    TallyStep(answers[..i], answers[i]);
  }

  lemma TallyCountsStep(p: seq<string>, x: string)
    ensures CountsOf(p + [x]) == CountsOf(p)[x := (if x in CountsOf(p) then CountsOf(p)[x] else 0) + 1]
  {
    var a := p + [x];
    var m := CountsOf(p);
    var m' := CountsOf(a);
    var bumped := m[x := (if x in m then m[x] else 0) + 1];
    assert forall t :: t in a <==> t in p || t == x;
    assert m'.Keys == bumped.Keys;
    forall t | t in m' ensures m'[t] == bumped[t] {
      assert multiset(a) == multiset(p) + multiset{x};
    }
  }

  /** The sum of the counts of `order`'s tags. */
  function SumCounts(order: seq<string>, counts: map<string, nat>): nat
    requires forall t :: t in order ==> t in counts
  {
    if order == [] then 0
    else SumCounts(order[..|order| - 1], counts) + counts[order[|order| - 1]]
  }

  lemma {:induction false} SumCountsBump(order: seq<string>, m: map<string, nat>, m': map<string, nat>, x: string)
    requires Distinct(order)
    requires forall t :: t in order ==> t in m && t in m'
    requires forall t :: t in order ==> m'[t] == m[t] + (if t == x then 1 else 0)
    ensures SumCounts(order, m') == SumCounts(order, m) + (if x in order then 1 else 0)
  {
    if order != [] {
      var p := order[..|order| - 1];
      var last := order[|order| - 1];
      assert order == p + [last];
      assert Distinct(p);
      assert last !in p;
      SumCountsBump(p, m, m', x);
    }
  }

  /** The counts of the tally add up to the number of answers. */
  lemma {:induction false} ScoresTotal(answers: seq<string>)
    ensures SumCounts(ScoresOf(answers).order, ScoresOf(answers).counts) == |answers|
  {
    if answers != [] {
      var p := answers[..|answers| - 1];
      var x := answers[|answers| - 1];
      assert answers == p + [x];
      var m := ScoresOf(p).counts;
      var m' := ScoresOf(answers).counts;
      var seen := FirstSeen(p);
      ScoresTotal(p);
      forall t | t in seen ensures m'[t] == m[t] + (if t == x then 1 else 0) {
        assert multiset(answers) == multiset(p) + multiset{x};
      }
      SumCountsBump(seen, m, m', x);
      if x !in p {
        assert FirstSeen(answers) == seen + [x];
        assert Occurrences(answers, x) == 1 by {
          assert multiset(answers) == multiset(p) + multiset{x};
        }
      }
    }
  }

  // ---------------------------------------------------------------------
  // `Object.entries(typeCounts).sort(([, a], [, b]) => b - a)`

  /** `Object.entries(typeCounts)`: one `[tag, count]` pair per key, in key
      insertion order. */
  function Entries(scores: Scores): (r: seq<Entry>)
    requires forall t :: t in scores.order ==> t in scores.counts
    ensures |r| == |scores.order|
    ensures forall i :: 0 <= i < |r| ==> r[i].tag == scores.order[i] && r[i].count == scores.counts[scores.order[i]]
  {
    seq(|scores.order|, i requires 0 <= i < |scores.order| => Entry(scores.order[i], scores.counts[scores.order[i]]))
  }

  /** The entries of the tally of `answers`: one per answered tag, none for
      any other tag, each with the tag's number of occurrences, listed in
      the order the tags are first answered. */
  lemma EntriesOfAnswers(answers: seq<string>)
    ensures forall i, j :: 0 <= i < j < |Entries(ScoresOf(answers))| ==>
      Entries(ScoresOf(answers))[i].tag != Entries(ScoresOf(answers))[j].tag
    ensures forall e :: e in Entries(ScoresOf(answers)) <==>
      e.tag in answers && e.count == Occurrences(answers, e.tag)
    ensures forall i, j :: 0 <= i < j < |Entries(ScoresOf(answers))| ==>
      FirstIndex(answers, Entries(ScoresOf(answers))[i].tag) < FirstIndex(answers, Entries(ScoresOf(answers))[j].tag)
  {
    var r := Entries(ScoresOf(answers));
    var order := FirstSeen(answers);
    forall e: Entry | e.tag in answers && e.count == Occurrences(answers, e.tag) ensures e in r {
      var i := KeyPosition(answers, e.tag);
      assert r[i] == e;
    }
    forall i, j | 0 <= i < j < |r|
      ensures FirstIndex(answers, r[i].tag) < FirstIndex(answers, r[j].tag)
    {
      FirstSeenOrdered(answers, i, j);
    }
  }

  ghost predicate SortedByCountDesc(s: seq<Entry>)
  {
    forall i, j :: 0 <= i < j < |s| ==> s[i].count >= s[j].count
  }

  /** The entries of `s` whose count is `c`, in their order in `s`. */
  function WithCount(s: seq<Entry>, c: nat): seq<Entry>
  {
    if s == [] then []
    else (if s[0].count == c then [s[0]] else []) + WithCount(s[1..], c)
  }

  /** Inserts `e` before the first entry whose count is not larger, so
      that `e` stays ahead of the entries of equal count. */
  function Insert(e: Entry, sorted: seq<Entry>): (r: seq<Entry>)
    ensures multiset(r) == multiset(sorted) + multiset{e}
    ensures |r| > 0 && r[0] == (if sorted == [] || e.count >= sorted[0].count then e else sorted[0])
  {
    if sorted == [] || e.count >= sorted[0].count then [e] + sorted
    else
      assert sorted == [sorted[0]] + sorted[1..];
      [sorted[0]] + Insert(e, sorted[1..])
  }

  lemma {:induction false} InsertSorted(e: Entry, sorted: seq<Entry>)
    requires SortedByCountDesc(sorted)
    ensures SortedByCountDesc(Insert(e, sorted))
  {
    if sorted != [] && e.count < sorted[0].count {
      var rest := Insert(e, sorted[1..]);
      InsertSorted(e, sorted[1..]);
      InsertBounded(e, sorted[1..], sorted[0].count);
      var r := [sorted[0]] + rest;
      forall i, j | 0 <= i < j < |r| ensures r[i].count >= r[j].count {
        assert r[j] == rest[j - 1];
        if i > 0 {
          assert r[i] == rest[i - 1];
        }
      }
    }
  }

  /** Inserting keeps every count within a bound that all counts meet. */
  lemma {:induction false} InsertBounded(e: Entry, s: seq<Entry>, bound: nat)
    requires e.count <= bound
    requires forall i :: 0 <= i < |s| ==> s[i].count <= bound
    ensures forall i :: 0 <= i < |Insert(e, s)| ==> Insert(e, s)[i].count <= bound
  {
    if s != [] && e.count < s[0].count {
      InsertBounded(e, s[1..], bound);
    }
  }

  /** A stable sort of the entries by count, descending: the model of
      `Array.prototype.sort`, which is stable, with the comparator `b - a`. */
  function SortByCountDesc(s: seq<Entry>): (r: seq<Entry>)
    ensures multiset(r) == multiset(s)
  {
    if s == [] then []
    else
      assert s == [s[0]] + s[1..];
      Insert(s[0], SortByCountDesc(s[1..]))
  }

  lemma {:induction false} SortSorted(s: seq<Entry>)
    ensures SortedByCountDesc(SortByCountDesc(s))
  {
    if s != [] {
      SortSorted(s[1..]);
      InsertSorted(s[0], SortByCountDesc(s[1..]));
    }
  }

  lemma {:induction false} InsertStable(e: Entry, sorted: seq<Entry>, c: nat)
    ensures WithCount(Insert(e, sorted), c) == (if e.count == c then [e] else []) + WithCount(sorted, c)
  {
    if sorted == [] || e.count >= sorted[0].count {
      WithCountCons(e, sorted, c);
    } else {
      var rest := Insert(e, sorted[1..]);
      WithCountCons(sorted[0], rest, c);
      WithCountCons(sorted[0], sorted[1..], c);
      assert sorted == [sorted[0]] + sorted[1..];
      InsertStable(e, sorted[1..], c);
      // sorted[0] and e never both have count c
      assert sorted[0].count != e.count;
    }
  }

  lemma WithCountCons(x: Entry, s: seq<Entry>, c: nat)
    ensures WithCount([x] + s, c) == (if x.count == c then [x] else []) + WithCount(s, c)
  {
  }

  /** Entries of equal count keep their relative order. */
  lemma {:induction false} SortStable(s: seq<Entry>, c: nat)
    ensures WithCount(SortByCountDesc(s), c) == WithCount(s, c)
  {
    if s != [] {
      InsertStable(s[0], SortByCountDesc(s[1..]), c);
      SortStable(s[1..], c);
    }
  }

  /** The head of the sorted entries is the first entry of largest count. */
  lemma {:induction false} SortHead(s: seq<Entry>) returns (k: nat)
    requires s != []
    ensures k < |s| && SortByCountDesc(s)[0] == s[k]
    ensures forall j :: 0 <= j < |s| ==> s[j].count <= s[k].count
    ensures forall j :: 0 <= j < k ==> s[j].count < s[k].count
  {
    var rest := SortByCountDesc(s[1..]);
    assert SortByCountDesc(s) == Insert(s[0], rest);
    if |s| == 1 {
      k := 0;
      assert rest == [];
    } else {
      var k' := SortHead(s[1..]);
      k := FirstMaxCons(s, k');
    }
  }

  /** Extends "index `k'` holds the first largest count of `s[1..]`" to `s`. */
  lemma FirstMaxCons(s: seq<Entry>, k': nat) returns (k: nat)
    requires |s| > 1 && k' < |s| - 1
    requires forall j :: 0 <= j < |s| - 1 ==> s[1..][j].count <= s[1..][k'].count
    requires forall j :: 0 <= j < k' ==> s[1..][j].count < s[1..][k'].count
    ensures k == (if s[0].count >= s[k' + 1].count then 0 else k' + 1)
    ensures forall j :: 0 <= j < |s| ==> s[j].count <= s[k].count
    ensures forall j :: 0 <= j < k ==> s[j].count < s[k].count
  {
    k := if s[0].count >= s[k' + 1].count then 0 else k' + 1;
    forall j | 1 <= j < |s| ensures s[j].count <= s[k].count && (j < k ==> s[j].count < s[k].count) {
      assert s[j] == s[1..][j - 1];
    }
  }

  /** `.sort(...)[0][0]`: the tag of the first sorted entry, or None when
      there is no entry. */
  function Dominant(scores: Scores): (r: Option<string>)
    requires forall t :: t in scores.order ==> t in scores.counts
    ensures r.None? <==> scores.order == []
    ensures r.Some? ==> r.value in scores.order
    ensures r.Some? ==> forall t :: t in scores.order ==> scores.counts[t] <= scores.counts[r.value]
  {
    var es := Entries(scores);
    var sorted := SortByCountDesc(es);
    if sorted == [] then
      assert |multiset(es)| == 0;
      None
    else
      SortSorted(es);
      assert sorted[0] in multiset(es);
      assert forall j :: 0 <= j < |es| ==> es[j].count <= sorted[0].count by {
        forall j | 0 <= j < |es| ensures es[j].count <= sorted[0].count {
          assert es[j] in multiset(sorted);
          var m :| 0 <= m < |sorted| && sorted[m] == es[j];
        }
      }
      Some(sorted[0].tag)
  }

  /** Over an insertion-ordered tally, `[0][0]` has no value (it throws)
      exactly when the tally is empty; otherwise it is the key at some position `k` whose
      count is the largest, and every key inserted before it has a strictly
      smaller count. */
  lemma DominantIsFirstMax(scores: Scores) returns (k: nat)
    requires forall t :: t in scores.order ==> t in scores.counts
    ensures Dominant(scores).None? <==> scores.order == []
    ensures scores.order != [] ==> k < |scores.order| && Dominant(scores) == Some(scores.order[k])
    ensures scores.order != [] ==>
      forall t :: t in scores.order ==> scores.counts[t] <= scores.counts[scores.order[k]]
    ensures scores.order != [] ==>
      forall i :: 0 <= i < k ==> scores.counts[scores.order[i]] < scores.counts[scores.order[k]]
  {
    k := 0;
    var es := Entries(scores);
    if es != [] {
      k := SortHead(es);
      forall u | u in scores.order ensures scores.counts[u] <= scores.counts[scores.order[k]] {
        var j :| 0 <= j < |scores.order| && scores.order[j] == u;
        assert es[j].count == scores.counts[u];
      }
      forall i | 0 <= i < k ensures scores.counts[scores.order[i]] < scores.counts[scores.order[k]] {
        assert es[i].count == scores.counts[scores.order[i]];
      }
    }
  }

  // ---------------------------------------------------------------------
  // From the tally back to the answers

  /** The tag that `.sort(...)[0][0]` picks from the tally of non-empty
      answers is the primary type: most frequent, and of the equally
      frequent tags the one that occurs first in the answers. */
  lemma DominantOfAnswers(answers: seq<string>)
    ensures Dominant(ScoresOf(answers)).None? <==> answers == []
    ensures Dominant(ScoresOf(answers)).Some? ==> IsDominant(answers, Dominant(ScoresOf(answers)).value)
  {
    var scores := ScoresOf(answers);
    var k := DominantIsFirstMax(scores);
    if answers != [] {
      assert answers[0] in scores.order;
      var order := scores.order;
      forall i | 0 <= i < k ensures Occurrences(answers, order[i]) < Occurrences(answers, order[k]) {
        assert scores.counts[order[i]] < scores.counts[order[k]];
      }
      TieBreakByFirstSeen(answers, k);
    }
  }

  /** A key that every earlier-inserted key trails strictly occurs in the
      answers before every other tag of the same count. */
  lemma TieBreakByFirstSeen(answers: seq<string>, k: nat)
    requires k < |FirstSeen(answers)|
    requires forall i :: 0 <= i < k ==>
      Occurrences(answers, FirstSeen(answers)[i]) < Occurrences(answers, FirstSeen(answers)[k])
    ensures forall u :: u in answers && Occurrences(answers, u) == Occurrences(answers, FirstSeen(answers)[k]) ==>
      FirstIndex(answers, FirstSeen(answers)[k]) <= FirstIndex(answers, u)
  {
    var order := FirstSeen(answers);
    forall u | u in answers && Occurrences(answers, u) == Occurrences(answers, order[k])
      ensures FirstIndex(answers, order[k]) <= FirstIndex(answers, u)
    {
      var i := KeyPosition(answers, u);
      if k < i {
        FirstSeenOrdered(answers, k, i);
      } else {
        // an earlier key would have a smaller count, so u is the key at k
        assert i == k;
      }
    }
  }

  /** Where tag `t` of the answers stands in the tally's key order. */
  lemma KeyPosition(answers: seq<string>, t: string) returns (i: nat)
    requires t in answers
    ensures i < |FirstSeen(answers)| && FirstSeen(answers)[i] == t
  {
    var order := FirstSeen(answers);
    assert t in order;
    i :| 0 <= i < |order| && order[i] == t;
  }

  /** At most one tag is the primary type. */
  lemma DominantUnique(answers: seq<string>, t: string)
    requires IsDominant(answers, t)
    ensures forall u :: IsDominant(answers, u) ==> u == t
  {
    // both occur first at the same index
  }

  // ---------------------------------------------------------------------
  // calculateQuizResult

  /** What `calculateQuizResult` returns for `answers` over `catalog`: the
      tally and the catalog record of the primary type (None when no record
      has that id), or NoAnswers for an empty answer list. */
  function Classify(answers: seq<string>, catalog: seq<CustomerType>): (r: Result<QuizResult, QuizError>)
    ensures r.Failure? <==> answers == []
    ensures r.Success? ==> r.value.scores == ScoresOf(answers)
    ensures r.Success? ==> forall t :: IsDominant(answers, t) ==> r.value.primaryType == FindType(catalog, t)
    ensures r.Success? ==> exists t :: IsDominant(answers, t) && r.value.primaryType == FindType(catalog, t)
  {
    var scores := ScoresOf(answers);
    DominantOfAnswers(answers);
    match Dominant(scores)
    case None => Failure(NoAnswers)
    case Some(t) =>
      DominantUnique(answers, t);
      Success(QuizResult(FindType(catalog, t), scores))
  }

  method CalculateQuizResult(answers: seq<string>, catalog: seq<CustomerType>) returns (r: Result<QuizResult, QuizError>)
    ensures r == Classify(answers, catalog)
  {
    var scores := Tally(answers);
    var dominant := Dominant(scores);
    if dominant.None? {
      return Failure(NoAnswers);
    }
    r := Success(QuizResult(FindType(catalog, dominant.value), scores));
  }

  // ---------------------------------------------------------------------
  // Worked examples

  /** A two-two tie goes to the tag answered first. */
  lemma TieGoesToFirstAnswered()
    ensures Dominant(ScoresOf(["analytical", "driver", "analytical", "driver"])) == Some("analytical")
  {
    var a := ["analytical", "driver", "analytical", "driver"];
    assert Occurrences(a, "analytical") == 2 && Occurrences(a, "driver") == 2;
    assert IsDominant(a, "analytical");
    DominantOfAnswers(a);
    DominantUnique(a, "analytical");
  }

  /** The winner of a tie is the tag answered first, not the first tag to
      reach the winning count. */
  lemma TieIgnoresWhoReachesMaxFirst()
    ensures Dominant(ScoresOf(["driver", "analytical", "analytical", "driver"])) == Some("driver")
  {
    var a := ["driver", "analytical", "analytical", "driver"];
    assert Occurrences(a, "analytical") == 2 && Occurrences(a, "driver") == 2;
    assert IsDominant(a, "driver");
    DominantOfAnswers(a);
    DominantUnique(a, "driver");
  }

  /** The tally counts each tag and lists the tags in answer order. */
  lemma MajorityTally()
    ensures ScoresOf(["driver", "driver", "amiable"]) == Scores(map["driver" := 2, "amiable" := 1], ["driver", "amiable"])
  {
    var a := ["driver", "driver", "amiable"];
    assert Occurrences(a, "driver") == 2 && Occurrences(a, "amiable") == 1;
    FirstSeenExample();
    var m := map t | t in a :: Occurrences(a, t);
    assert m.Keys == {"driver", "amiable"};
    assert m == map["driver" := 2, "amiable" := 1];
  }

  lemma FirstSeenExample()
    ensures FirstSeen(["driver", "driver", "amiable"]) == ["driver", "amiable"]
  {
    var a := ["driver", "driver", "amiable"];
    assert a[..2] == ["driver", "driver"] && a[..2][..1] == ["driver"] && ["driver"][..0] == [];
    assert FirstSeen(["driver"]) == ["driver"];
    assert FirstSeen(["driver", "driver"]) == ["driver"];
  }

  /** A majority wins. */
  lemma MajorityWins()
    ensures Dominant(ScoresOf(["driver", "driver", "amiable"])) == Some("driver")
  {
    var a := ["driver", "driver", "amiable"];
    assert Occurrences(a, "driver") == 2 && Occurrences(a, "amiable") == 1;
    assert IsDominant(a, "driver");
    DominantOfAnswers(a);
    DominantUnique(a, "driver");
  }
}

/** The dashboard's statistics: `getStats` counts the records per value of one
    field and orders the counts from largest to smallest; each bar chart shows
    the first eight. */
module Dashboard {
  import opened Wrappers
  import opened Schema
  import Seqs

  /** One `{label, value}` entry of `getStats`. */
  datatype Bucket = Bucket(name: string, count: nat)

  /** The label of a falsy value. */
  const Unspecified: string := "Não informado"

  const ChartRows: nat := 8

  /** `rawVal ? String(rawVal) : 'Não informado'` for a nullable string. */
  function LabelOf(v: Option<string>): string {
    if v.Some? && v.value != "" then v.value else Unspecified
  }

  function LabelsOf(bs: seq<Bucket>): seq<string> {
    seq(|bs|, i requires 0 <= i < |bs| => bs[i].name)
  }

  /** The count of the first entry labelled `l`, 0 when there is none. */
  function Lookup(bs: seq<Bucket>, l: string): nat
    decreases |bs|
  {
    if |bs| == 0 then 0 else if bs[0].name == l then bs[0].count else Lookup(bs[1..], l)
  }

  function SumCounts(bs: seq<Bucket>): nat
    decreases |bs|
  {
    if |bs| == 0 then 0 else bs[0].count + SumCounts(bs[1..])
  }

  /** How many times `l` occurs in `xs`. */
  function Occ(xs: seq<string>, l: string): nat
    decreases |xs|
  {
    if |xs| == 0 then 0 else Occ(xs[..|xs| - 1], l) + (if xs[|xs| - 1] == l then 1 else 0)
  }

  /** The distinct labels of `xs`, each where it first occurs. */
  function FirstSeen(xs: seq<string>): seq<string>
    decreases |xs|
  {
    if |xs| == 0 then []
    else FirstSeen(xs[..|xs| - 1]) + (if xs[|xs| - 1] in xs[..|xs| - 1] then [] else [xs[|xs| - 1]])
  }

  predicate Positive(bs: seq<Bucket>) {
    forall i :: 0 <= i < |bs| ==> bs[i].count >= 1
  }

  /** `counts[val] = (counts[val] || 0) + 1`: a known label is counted again in
      place, a new label is appended (the insertion order `Object.entries` keeps). */
  function Bump(bs: seq<Bucket>, l: string): seq<Bucket>
    decreases |bs|
  {
    if |bs| == 0 then [Bucket(l, 1)]
    else if bs[0].name == l then [Bucket(l, bs[0].count + 1)] + bs[1..]
    else [bs[0]] + Bump(bs[1..], l)
  }

  /** The `forEach` over the records' labels. */
  function Tally(xs: seq<string>): seq<Bucket>
    decreases |xs|
  {
    if |xs| == 0 then [] else Bump(Tally(xs[..|xs| - 1]), xs[|xs| - 1])
  }

  /** Counting a label once more keeps the labels distinct and every count
      positive, counts `l` once more and every other label as before, and adds one
      to the total. */
  lemma BumpSpec(bs: seq<Bucket>, l: string)
    requires Seqs.NoDuplicates(LabelsOf(bs)) && Positive(bs)
    ensures LabelsOf(Bump(bs, l)) == LabelsOf(bs) + (if l in LabelsOf(bs) then [] else [l])
    ensures Seqs.NoDuplicates(LabelsOf(Bump(bs, l))) && Positive(Bump(bs, l))
    ensures forall k :: Lookup(Bump(bs, l), k) == Lookup(bs, k) + (if k == l then 1 else 0)
    ensures SumCounts(Bump(bs, l)) == SumCounts(bs) + 1
  {
    BumpLabels(bs, l);
    BumpPositive(bs, l);
    BumpLookup(bs, l);
    BumpSum(bs, l);
  }

  lemma {:induction false} BumpLabels(bs: seq<Bucket>, l: string)
    requires Seqs.NoDuplicates(LabelsOf(bs))
    ensures LabelsOf(Bump(bs, l)) == LabelsOf(bs) + (if l in LabelsOf(bs) then [] else [l])
    ensures Seqs.NoDuplicates(LabelsOf(Bump(bs, l)))
    decreases |bs|
  {
    var r := Bump(bs, l);
    if |bs| == 0 {
      assert LabelsOf(r) == [l];
    } else if bs[0].name == l {
      assert LabelsOf(bs)[0] == l;
      assert LabelsOf(bs) + [] == LabelsOf(bs);
      assert LabelsOf(r) == LabelsOf(bs) by {
        assert forall i :: 0 < i < |r| ==> r[i] == bs[i];
      }
    } else {
      var rest := Bump(bs[1..], l);
      assert LabelsOf(bs) == [bs[0].name] + LabelsOf(bs[1..]);
      assert LabelsOf(bs)[1..] == LabelsOf(bs[1..]);
      assert Seqs.NoDuplicates(LabelsOf(bs[1..]));
      BumpLabels(bs[1..], l);
      assert r == [bs[0]] + rest;
      assert LabelsOf(r) == [bs[0].name] + LabelsOf(rest);
      forall i | 0 <= i < |LabelsOf(bs[1..])| ensures LabelsOf(bs[1..])[i] != bs[0].name {
        assert LabelsOf(bs)[i + 1] == LabelsOf(bs[1..])[i];
        assert LabelsOf(bs)[0] == bs[0].name;
      }
      assert bs[0].name !in LabelsOf(rest);
      NoDupCons(bs[0].name, LabelsOf(rest));
    }
  }

  lemma {:induction false} BumpPositive(bs: seq<Bucket>, l: string)
    requires Positive(bs)
    ensures Positive(Bump(bs, l))
    decreases |bs|
  {
    if |bs| > 0 && bs[0].name != l {
      BumpPositive(bs[1..], l);
    }
  }

  lemma {:induction false} BumpLookup(bs: seq<Bucket>, l: string)
    ensures forall k :: Lookup(Bump(bs, l), k) == Lookup(bs, k) + (if k == l then 1 else 0)
    decreases |bs|
  {
    var r := Bump(bs, l);
    if |bs| > 0 {
      if bs[0].name == l {
        assert r[1..] == bs[1..];
      } else {
        BumpLookup(bs[1..], l);
        assert r[1..] == Bump(bs[1..], l);
      }
    }
  }

  lemma {:induction false} BumpSum(bs: seq<Bucket>, l: string)
    ensures SumCounts(Bump(bs, l)) == SumCounts(bs) + 1
    decreases |bs|
  {
    var r := Bump(bs, l);
    if |bs| > 0 {
      if bs[0].name == l {
        assert r[1..] == bs[1..];
      } else {
        BumpSum(bs[1..], l);
        assert r[1..] == Bump(bs[1..], l);
      }
    }
  }

  lemma NoDupCons(x: string, xs: seq<string>)
    requires x !in xs && Seqs.NoDuplicates(xs)
    ensures Seqs.NoDuplicates([x] + xs)
  {
    var ys := [x] + xs;
    forall i, j | 0 <= i < j < |ys| ensures ys[i] != ys[j] {
      assert ys[j] == xs[j - 1];
      if i > 0 {
        assert ys[i] == xs[i - 1];
      }
    }
  }

  /** Counting keeps one entry per distinct label, in order of first occurrence,
      each with the number of occurrences; the counts add up to the number of
      records. */
  lemma {:induction false} TallySpec(xs: seq<string>)
    ensures Seqs.NoDuplicates(LabelsOf(Tally(xs))) && Positive(Tally(xs))
    ensures forall l :: l in LabelsOf(Tally(xs)) <==> l in xs
    ensures forall l :: Lookup(Tally(xs), l) == Occ(xs, l)
    ensures SumCounts(Tally(xs)) == |xs|
    decreases |xs|
  {
    if |xs| > 0 {
      var init := xs[..|xs| - 1];
      var x := xs[|xs| - 1];
      TallySpec(init);
      BumpSpec(Tally(init), x);
      assert xs == init + [x];
      forall l ensures l in LabelsOf(Tally(xs)) <==> l in xs {
        assert l in xs <==> l in init || l == x;
      }
    }
  }

  /** The entries come in the order in which their labels first occur. */
  lemma {:induction false} TallyOrder(xs: seq<string>)
    ensures LabelsOf(Tally(xs)) == FirstSeen(xs)
    decreases |xs|
  {
    if |xs| > 0 {
      var init := xs[..|xs| - 1];
      TallyOrder(init);
      TallySpec(init);
      BumpLabels(Tally(init), xs[|xs| - 1]);
    }
  }

  /** With distinct labels, `Lookup` finds an entry's own count. */
  lemma {:induction false} LookupMember(bs: seq<Bucket>, i: nat)
    requires Seqs.NoDuplicates(LabelsOf(bs)) && i < |bs|
    ensures Lookup(bs, bs[i].name) == bs[i].count
    decreases |bs|
  {
    if i > 0 {
      assert LabelsOf(bs)[0] != LabelsOf(bs)[i];
      assert LabelsOf(bs[1..]) == LabelsOf(bs)[1..];
      LookupMember(bs[1..], i - 1);
    }
  }

  // ---------------------------------------------------------------------------
  // Ordering

  predicate Descending(bs: seq<Bucket>) {
    forall i, j :: 0 <= i < j < |bs| ==> bs[i].count >= bs[j].count
  }

  /** The entries counting exactly `c`, in their order. */
  function WithCount(bs: seq<Bucket>, c: nat): seq<Bucket>
    decreases |bs|
  {
    if |bs| == 0 then [] else (if bs[0].count == c then [bs[0]] else []) + WithCount(bs[1..], c)
  }

  lemma {:induction false} WithCountConcat(a: seq<Bucket>, b: seq<Bucket>, c: nat)
    ensures WithCount(a + b, c) == WithCount(a, c) + WithCount(b, c)
    decreases |a|
  {
    if |a| == 0 {
      assert a + b == b;
    } else {
      WithCountConcat(a[1..], b, c);
      assert (a + b)[1..] == a[1..] + b;
    }
  }

  lemma {:induction false} WithCountBelow(s: seq<Bucket>, c: nat)
    requires forall i :: 0 <= i < |s| ==> s[i].count < c
    ensures WithCount(s, c) == []
    decreases |s|
  {
    if |s| > 0 {
      WithCountBelow(s[1..], c);
    }
  }

  lemma WithCountOne(b: Bucket, c: nat)
    ensures WithCount([b], c) == if b.count == c then [b] else []
  {
    assert [b][1..] == [];
  }

  /** Where a stable descending sort places `b`: after every entry whose count is
      at least its own. */
  function DescPos(b: Bucket, s: seq<Bucket>): (p: nat)
    ensures p <= |s|
    ensures forall i :: 0 <= i < p ==> s[i].count >= b.count
    ensures p < |s| ==> s[p].count < b.count
    decreases |s|
  {
    if |s| == 0 || s[0].count < b.count then 0 else 1 + DescPos(b, s[1..])
  }

  function InsertDesc(b: Bucket, s: seq<Bucket>): seq<Bucket> {
    var p := DescPos(b, s);
    s[..p] + [b] + s[p..]
  }

  /** `.sort((a, b) => b.value - a.value)`, which is stable: entries with equal
      counts keep their order. */
  function SortDesc(bs: seq<Bucket>): seq<Bucket>
    decreases |bs|
  {
    if |bs| == 0 then [] else InsertDesc(bs[|bs| - 1], SortDesc(bs[..|bs| - 1]))
  }

  lemma InsertDescSorted(b: Bucket, s: seq<Bucket>)
    requires Descending(s)
    ensures Descending(InsertDesc(b, s))
  {
    var p := DescPos(b, s);
    var r := InsertDesc(b, s);
    forall i, j | 0 <= i < j < |r| ensures r[i].count >= r[j].count {
      if j < p {
        assert r[i] == s[i] && r[j] == s[j];
      } else if j == p {
        assert r[i] == s[i] && r[j] == b;
      } else if i == p {
        assert r[j] == s[j - 1];
        assert s[p].count >= s[j - 1].count;
      } else if i < p {
        assert r[i] == s[i] && r[j] == s[j - 1];
      } else {
        assert r[i] == s[i - 1] && r[j] == s[j - 1];
      }
    }
  }

  lemma {:induction false} SumConcat(a: seq<Bucket>, c: seq<Bucket>)
    ensures SumCounts(a + c) == SumCounts(a) + SumCounts(c)
    decreases |a|
  {
    if |a| > 0 {
      SumConcat(a[1..], c);
      assert (a + c)[1..] == a[1..] + c;
    } else {
      assert a + c == c;
    }
  }

  lemma InsertDescSpec(b: Bucket, s: seq<Bucket>)
    requires Descending(s)
    ensures Descending(InsertDesc(b, s))
    ensures multiset(InsertDesc(b, s)) == multiset(s) + multiset{b}
    ensures SumCounts(InsertDesc(b, s)) == SumCounts(s) + b.count
  {
    var p := DescPos(b, s);
    InsertDescSorted(b, s);
    assert s == s[..p] + s[p..];
    SumConcat(s[..p], s[p..]);
    SumConcat(s[..p] + [b], s[p..]);
    SumConcat(s[..p], [b]);
    assert SumCounts([b]) == b.count;
  }

  /** Inserting `b` puts it after every entry with its own count. */
  lemma InsertDescStable(b: Bucket, s: seq<Bucket>, c: nat)
    requires Descending(s)
    ensures WithCount(InsertDesc(b, s), c) == WithCount(s, c) + (if b.count == c then [b] else [])
  {
    var p := DescPos(b, s);
    var pre, post := s[..p], s[p..];
    assert s == pre + post;
    assert InsertDesc(b, s) == (pre + [b]) + post;
    WithCountConcat(pre + [b], post, c);
    WithCountConcat(pre, [b], c);
    WithCountConcat(pre, post, c);
    WithCountOne(b, c);
    if b.count == c {
      AfterInsertBelow(b, s);
    }
  }

  /** No entry after the insertion point counts as much as the inserted one. */
  lemma AfterInsertBelow(b: Bucket, s: seq<Bucket>)
    requires Descending(s)
    ensures WithCount(s[DescPos(b, s)..], b.count) == []
  {
    var p := DescPos(b, s);
    forall i | 0 <= i < |s[p..]| ensures s[p..][i].count < b.count {
      assert s[p..][i] == s[p + i];
    }
    WithCountBelow(s[p..], b.count);
  }

  /** The sort is stable: the entries with any one count keep their order. */
  lemma {:induction false} SortDescStable(bs: seq<Bucket>, c: nat)
    ensures WithCount(SortDesc(bs), c) == WithCount(bs, c)
    decreases |bs|
  {
    if |bs| > 0 {
      var init := bs[..|bs| - 1];
      var x := bs[|bs| - 1];
      SortDescStable(init, c);
      SortDescSorted(init);
      InsertDescStable(x, SortDesc(init), c);
      assert bs == init + [x];
      WithCountConcat(init, [x], c);
      WithCountOne(x, c);
    }
  }

  lemma SortDescSpec(bs: seq<Bucket>)
    ensures Descending(SortDesc(bs))
    ensures multiset(SortDesc(bs)) == multiset(bs)
    ensures SumCounts(SortDesc(bs)) == SumCounts(bs)
    ensures forall c :: WithCount(SortDesc(bs), c) == WithCount(bs, c)
  {
    SortDescSorted(bs);
    SortDescPerm(bs);
    SortDescSum(bs);
    forall c ensures WithCount(SortDesc(bs), c) == WithCount(bs, c) {
      SortDescStable(bs, c);
    }
  }

  lemma {:induction false} SortDescSorted(bs: seq<Bucket>)
    ensures Descending(SortDesc(bs))
    decreases |bs|
  {
    if |bs| > 0 {
      SortDescSorted(bs[..|bs| - 1]);
      InsertDescSorted(bs[|bs| - 1], SortDesc(bs[..|bs| - 1]));
    }
  }

  lemma {:induction false} SortDescPerm(bs: seq<Bucket>)
    ensures multiset(SortDesc(bs)) == multiset(bs)
    decreases |bs|
  {
    if |bs| > 0 {
      var init := bs[..|bs| - 1];
      var x := bs[|bs| - 1];
      SortDescPerm(init);
      SortDescSorted(init);
      InsertDescSpec(x, SortDesc(init));
      assert bs == init + [x];
    }
  }

  lemma {:induction false} SortDescSum(bs: seq<Bucket>)
    ensures SumCounts(SortDesc(bs)) == SumCounts(bs)
    decreases |bs|
  {
    if |bs| > 0 {
      var init := bs[..|bs| - 1];
      var x := bs[|bs| - 1];
      SortDescSum(init);
      SortDescSorted(init);
      InsertDescSpec(x, SortDesc(init));
      assert bs == init + [x];
      SumConcat(init, [x]);
      assert SumCounts([x]) == x.count;
    }
  }

  // ---------------------------------------------------------------------------
  // getStats

  /** `m[key]` for every record. */
  function Project(monks: seq<Monk>, key: Field): seq<Option<string>> {
    seq(|monks|, i requires 0 <= i < |monks| => Cell(monks[i], key))
  }

  function Labels(vals: seq<Option<string>>): seq<string> {
    seq(|vals|, i requires 0 <= i < |vals| => LabelOf(vals[i]))
  }

  /** `getStats(key)` over the values the records hold for `key`. */
  function GetStats(vals: seq<Option<string>>): seq<Bucket> {
    SortDesc(Tally(Labels(vals)))
  }

  /** The statistics hold one entry per distinct label, each with the number of
      records carrying that label; they are ordered from the largest count down,
      entries with equal counts in the order their labels first occur, and their
      counts add up to the number of records. */
  lemma GetStatsSpec(vals: seq<Option<string>>)
    ensures Descending(GetStats(vals))
    ensures SumCounts(GetStats(vals)) == |vals|
    ensures |GetStats(vals)| <= |vals| && (|vals| == 0 <==> GetStats(vals) == [])
    ensures forall b :: b in GetStats(vals) ==> b.count == Occ(Labels(vals), b.name) && b.count >= 1
    ensures forall l :: l in Labels(vals) ==> Bucket(l, Occ(Labels(vals), l)) in GetStats(vals)
    ensures forall i, j :: 0 <= i < j < |GetStats(vals)| ==> GetStats(vals)[i].name != GetStats(vals)[j].name
    ensures LabelsOf(Tally(Labels(vals))) == FirstSeen(Labels(vals))
    ensures forall c :: WithCount(GetStats(vals), c) == WithCount(Tally(Labels(vals)), c)
  {
    StatsTotals(vals);
    StatsEntries(vals);
    StatsDistinct(vals);
    TallyOrder(Labels(vals));
    forall c ensures WithCount(GetStats(vals), c) == WithCount(Tally(Labels(vals)), c) {
      SortDescStable(Tally(Labels(vals)), c);
    }
  }

  /** `getStats(key)` over the records: the counts add up to the number of records,
      and every record's label has an entry counting all records with that label. */
  lemma RecordStats(monks: seq<Monk>, key: Field)
    ensures SumCounts(GetStats(Project(monks, key))) == |monks|
    ensures forall i :: 0 <= i < |monks| ==>
      Bucket(LabelOf(Cell(monks[i], key)), Occ(Labels(Project(monks, key)), LabelOf(Cell(monks[i], key))))
        in GetStats(Project(monks, key))
  {
    var vals := Project(monks, key);
    GetStatsSpec(vals);
    forall i | 0 <= i < |monks|
      ensures Bucket(LabelOf(Cell(monks[i], key)), Occ(Labels(vals), LabelOf(Cell(monks[i], key)))) in GetStats(vals)
    {
      assert Labels(vals)[i] == LabelOf(Cell(monks[i], key));
    }
  }

  lemma StatsTotals(vals: seq<Option<string>>)
    ensures Descending(GetStats(vals))
    ensures SumCounts(GetStats(vals)) == |vals|
    ensures |GetStats(vals)| <= |vals| && (|vals| == 0 <==> GetStats(vals) == [])
  {
    var xs := Labels(vals);
    var t := Tally(xs);
    var r := GetStats(vals);
    TallySpec(xs);
    SortDescSpec(t);
    assert |r| == |t| by {
      assert |multiset(r)| == |multiset(t)|;
    }
    SumBound(t);
  }

  lemma StatsEntries(vals: seq<Option<string>>)
    ensures forall b :: b in GetStats(vals) ==> b.count == Occ(Labels(vals), b.name) && b.count >= 1
    ensures forall l :: l in Labels(vals) ==> Bucket(l, Occ(Labels(vals), l)) in GetStats(vals)
  {
    var xs := Labels(vals);
    var t := Tally(xs);
    var r := GetStats(vals);
    TallySpec(xs);
    SortDescSpec(t);
    forall b | b in r ensures b.count == Occ(xs, b.name) && b.count >= 1 {
      assert b in multiset(t);
      var i :| 0 <= i < |t| && t[i] == b;
      LookupMember(t, i);
    }
    forall l | l in xs ensures Bucket(l, Occ(xs, l)) in r {
      assert l in LabelsOf(t);
      var i :| 0 <= i < |t| && LabelsOf(t)[i] == l;
      LookupMember(t, i);
      assert t[i] in multiset(r);
    }
  }

  lemma StatsDistinct(vals: seq<Option<string>>)
    ensures forall i, j :: 0 <= i < j < |GetStats(vals)| ==> GetStats(vals)[i].name != GetStats(vals)[j].name
  {
    var xs := Labels(vals);
    var t := Tally(xs);
    var r := GetStats(vals);
    TallySpec(xs);
    SortDescSpec(t);
    PermKeepsNamesDistinct(t, r);
  }

  /** Reordering entries with distinct names keeps the names distinct. */
  lemma PermKeepsNamesDistinct(t: seq<Bucket>, r: seq<Bucket>)
    requires Seqs.NoDuplicates(LabelsOf(t)) && multiset(r) == multiset(t)
    ensures forall i, j :: 0 <= i < j < |r| ==> r[i].name != r[j].name
  {
    forall i, j | 0 <= i < j < |r| ensures r[i].name != r[j].name {
      if r[i].name == r[j].name {
        assert r[i] in multiset(t) && r[j] in multiset(t);
        SameNameSameEntry(t, r[i], r[j]);
        CountTwo(r, i, j);
        DistinctCount(t, r[i]);
      }
    }
  }

  lemma SameNameSameEntry(t: seq<Bucket>, a: Bucket, b: Bucket)
    requires Seqs.NoDuplicates(LabelsOf(t)) && a in t && b in t && a.name == b.name
    ensures a == b
  {
    var i :| 0 <= i < |t| && t[i] == a;
    var j :| 0 <= j < |t| && t[j] == b;
    assert LabelsOf(t)[i] == LabelsOf(t)[j];
  }

  /** With every count positive, there are no more entries than counted items. */
  lemma {:induction false} SumBound(bs: seq<Bucket>)
    requires Positive(bs)
    ensures |bs| <= SumCounts(bs)
    decreases |bs|
  {
    if |bs| > 0 {
      SumBound(bs[1..]);
    }
  }

  /** An entry of a list with distinct labels occurs once. */
  lemma {:induction false} DistinctCount(bs: seq<Bucket>, b: Bucket)
    requires Seqs.NoDuplicates(LabelsOf(bs))
    ensures multiset(bs)[b] <= 1
    decreases |bs|
  {
    if |bs| > 0 {
      assert LabelsOf(bs[1..]) == LabelsOf(bs)[1..];
      DistinctCount(bs[1..], b);
      assert bs == [bs[0]] + bs[1..];
      forall k | 0 <= k < |bs[1..]| ensures bs[1..][k].name != bs[0].name {
        assert LabelsOf(bs)[0] != LabelsOf(bs)[k + 1];
      }
    }
  }

  lemma {:induction false} CountTwo(r: seq<Bucket>, i: nat, j: nat)
    requires i < j < |r| && r[i] == r[j]
    ensures multiset(r)[r[i]] >= 2
  {
    assert r == r[..i] + [r[i]] + r[i + 1..j] + [r[j]] + r[j + 1..];
  }

  /** The first eight entries, as each bar chart shows them. */
  function TopEight(bs: seq<Bucket>): seq<Bucket> {
    if |bs| <= ChartRows then bs else bs[..ChartRows]
  }

  /** A chart shows at most eight entries, each counting at least as many records
      as any entry it leaves out. */
  lemma TopEightSpec(bs: seq<Bucket>)
    requires Descending(bs)
    ensures |TopEight(bs)| <= ChartRows && |TopEight(bs)| == if |bs| < ChartRows then |bs| else ChartRows
    ensures forall i, j :: 0 <= i < |TopEight(bs)| <= j < |bs| ==> TopEight(bs)[i].count >= bs[j].count
    ensures forall i :: 0 <= i < |TopEight(bs)| ==> TopEight(bs)[i] == bs[i]
  {
  }

  /** Every falsy value and every literal "Não informado" share one entry. */
  lemma UnspecifiedMerges(vals: seq<Option<string>>, i: nat)
    requires i < |vals|
    ensures LabelOf(vals[i]) == Unspecified <==>
      vals[i].None? || vals[i] == Some("") || vals[i] == Some(Unspecified)
  {
  }

  /** `getStats('titulo')` reads a property no record has: every record is
      "Não informado", so the chart has one entry, or none without records. */
  lemma MissingKeyStats(n: nat)
    ensures var vals := seq(n, i => None);
      GetStats(vals) == if n == 0 then [] else [Bucket(Unspecified, n)]
  {
    var vals: seq<Option<string>> := seq(n, i => None);
    var xs := Labels(vals);
    TallyConstant(xs, Unspecified);
    if n > 0 {
      assert SortDesc([Bucket(Unspecified, n)]) == InsertDesc(Bucket(Unspecified, n), []);
    }
  }

  /** Counting a list whose every label is `l` gives one entry, or none. */
  lemma {:induction false} TallyConstant(xs: seq<string>, l: string)
    requires forall i :: 0 <= i < |xs| ==> xs[i] == l
    ensures Tally(xs) == if |xs| == 0 then [] else [Bucket(l, |xs|)]
    decreases |xs|
  {
    if |xs| > 0 {
      TallyConstant(xs[..|xs| - 1], l);
      if |xs| > 1 {
        assert [Bucket(l, |xs| - 1)][1..] == [];
      }
    }
  }
}

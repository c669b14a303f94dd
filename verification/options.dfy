/** The option lists of the advanced filters: `allOccupations` and
    `getUniqueOptions`, each `Array.from(new Set(...)).sort()`. */
module Options {
  import opened Wrappers
  import opened Schema
  import opened Text
  import Seqs
  import Constants
  import Query

  /** Strictly increasing, hence without duplicates. */
  predicate StrictlySorted(xs: seq<string>) {
    forall i, j :: 0 <= i < j < |xs| ==> Less(xs[i], xs[j])
  }

  /** Adds `x` to a strictly sorted list unless it is already there. */
  function InsertUnique(x: string, xs: seq<string>): (r: seq<string>)
    requires StrictlySorted(xs)
    ensures StrictlySorted(r)
    ensures forall y :: y in r <==> y == x || y in xs
    decreases |xs|
  {
    if |xs| == 0 then [x]
    else if x == xs[0] then xs
    else if Less(x, xs[0]) then
      assert forall j :: 0 < j < |xs| ==> Less(x, xs[j]) by {
        forall j | 0 < j < |xs| ensures Less(x, xs[j]) {
          LessTransitive(x, xs[0], xs[j]);
        }
      }
      [x] + xs
    else
      var rest := InsertUnique(x, xs[1..]);
      assert forall y :: y in rest ==> Less(xs[0], y) by {
        LessTotal(x, xs[0]);
        forall y | y in rest ensures Less(xs[0], y) {
          if y != x {
            var j :| 0 <= j < |xs[1..]| && xs[1..][j] == y;
            assert xs[j + 1] == y;
          }
        }
      }
      assert forall y :: y in xs <==> y == xs[0] || y in xs[1..] by {
        assert xs == [xs[0]] + xs[1..];
      }
      [xs[0]] + rest
  }

  /** `Array.from(new Set(xs)).sort()`: the distinct values in ascending order. */
  function SortedDistinct(xs: seq<string>): (r: seq<string>)
    ensures StrictlySorted(r)
    ensures forall y :: y in r <==> y in xs
    decreases |xs|
  {
    if |xs| == 0 then []
    else
      assert forall y :: y in xs <==> y == xs[0] || y in xs[1..] by {
        assert xs == [xs[0]] + xs[1..];
      }
      InsertUnique(xs[0], SortedDistinct(xs[1..]))
  }

  /** A strictly sorted list is determined by its elements: `SortedDistinct` is the
      only list that is sorted, duplicate-free and holds exactly the input values. */
  lemma {:induction false} StrictlySortedUnique(a: seq<string>, b: seq<string>)
    requires StrictlySorted(a) && StrictlySorted(b)
    requires forall y :: y in a <==> y in b
    ensures a == b
    decreases |a|
  {
    if |a| > 0 {
      assert a[0] in b;
      assert b[0] in a;
      var i :| 0 <= i < |b| && b[i] == a[0];
      var j :| 0 <= j < |a| && a[j] == b[0];
      if i > 0 && j > 0 {
        LessAsymmetric(b[0], a[0]);
      } else if i > 0 {
        LessIrreflexive(a[0]);
      } else if j > 0 {
        LessIrreflexive(b[0]);
      }
      assert a[0] == b[0];
      forall y ensures y in a[1..] <==> y in b[1..] {
        if y in a[1..] {
          var k :| 0 <= k < |a[1..]| && a[1..][k] == y;
          assert Less(a[0], a[k + 1]);
          LessIrreflexive(y);
          assert y in b;
        }
        if y in b[1..] {
          var k :| 0 <= k < |b[1..]| && b[1..][k] == y;
          assert Less(b[0], b[k + 1]);
          LessIrreflexive(y);
          assert y in a;
        }
      }
      StrictlySortedUnique(a[1..], b[1..]);
      assert a == [a[0]] + a[1..] && b == [b[0]] + b[1..];
    } else {
      NonEmptyHasMember(b);
    }
  }

  lemma NonEmptyHasMember(b: seq<string>)
    ensures |b| > 0 <==> exists y :: y in b
  {
    if |b| > 0 {
      assert b[0] in b;
    }
  }

  /** Every occupation used by some record. */
  function UsedOccupations(monks: seq<Monk>): seq<string> {
    Seqs.Flatten(seq(|monks|, i requires 0 <= i < |monks| => monks[i].ocupacao))
  }

  /** `allOccupations`: the predefined list merged with every used occupation. */
  function AllOccupations(monks: seq<Monk>): seq<string> {
    SortedDistinct(Constants.PredefinedOccupations + UsedOccupations(monks))
  }

  /** The occupation options are sorted without repeats, and an occupation is offered
      exactly when it is predefined or some record uses it. */
  lemma AllOccupationsSpec(monks: seq<Monk>)
    ensures StrictlySorted(AllOccupations(monks))
    ensures forall o :: o in AllOccupations(monks) <==>
      o in Constants.PredefinedOccupations || exists i :: 0 <= i < |monks| && o in monks[i].ocupacao
  {
    var xss := seq(|monks|, i requires 0 <= i < |monks| => monks[i].ocupacao);
    forall o ensures o in UsedOccupations(monks) <==> exists i :: 0 <= i < |monks| && o in monks[i].ocupacao {
      Seqs.FlattenMember(xss, o);
      if exists i :: 0 <= i < |monks| && o in monks[i].ocupacao {
        var i :| 0 <= i < |monks| && o in monks[i].ocupacao;
        assert o in xss[i];
      }
    }
  }

  /** `m[key]` kept by the `getUniqueOptions` filter: a non-empty string. */
  function OptionValues(monks: seq<Monk>, key: Field): seq<string>
    decreases |monks|
  {
    if |monks| == 0 then []
    else
      var v := Cell(monks[0], key);
      (if v.Some? && v.value != "" then [v.value] else []) + OptionValues(monks[1..], key)
  }

  /** `getUniqueOptions(key)`: the occupation list for `ocupacao_oficio`, nothing for
      the other array-valued key `livros`, otherwise the distinct non-empty values of
      that column, sorted. */
  function UniqueOptions(monks: seq<Monk>, key: Field): seq<string> {
    if key == OcupacaoOficio then AllOccupations(monks)
    else if key == Livros then []
    else SortedDistinct(OptionValues(monks, key))
  }

  lemma {:induction false} OptionValuesSpec(monks: seq<Monk>, key: Field)
    ensures forall v :: v in OptionValues(monks, key) <==>
      v != "" && exists i :: 0 <= i < |monks| && Cell(monks[i], key) == Some(v)
    decreases |monks|
  {
    if |monks| > 0 {
      OptionValuesSpec(monks[1..], key);
      forall v ensures v in OptionValues(monks, key) <==>
        v != "" && exists i :: 0 <= i < |monks| && Cell(monks[i], key) == Some(v)
      {
        if v != "" && exists i :: 0 <= i < |monks| && Cell(monks[i], key) == Some(v) {
          var i :| 0 <= i < |monks| && Cell(monks[i], key) == Some(v);
          if i > 0 {
            assert monks[1..][i - 1] == monks[i];
          }
        }
        if v in OptionValues(monks[1..], key) {
          var i :| 0 <= i < |monks[1..]| && Cell(monks[1..][i], key) == Some(v);
          assert monks[i + 1] == monks[1..][i];
        }
      }
    }
  }

  /** The options of a scalar column are sorted without repeats, and a value is
      offered exactly when some record holds it and it is not empty; `livros` has
      no options. */
  lemma UniqueOptionsSpec(monks: seq<Monk>, key: Field)
    requires !IsList(key)
    ensures StrictlySorted(UniqueOptions(monks, key))
    ensures forall v :: v in UniqueOptions(monks, key) <==>
      v != "" && exists i :: 0 <= i < |monks| && Cell(monks[i], key) == Some(v)
    ensures UniqueOptions(monks, Livros) == []
  {
    OptionValuesSpec(monks, key);
  }

  /** Every predefined occupation is offered, even with no record. */
  lemma PredefinedAlwaysOffered(monks: seq<Monk>, o: string)
    requires o in Constants.PredefinedOccupations
    ensures o in UniqueOptions(monks, OcupacaoOficio)
  {
    AllOccupationsSpec(monks);
  }

  /** Picking an offered value as a filter keeps at least the record it came from:
      some record passes the filter, unless the value is a predefined occupation. */
  lemma OfferedValueSelectsItsRecord(monks: seq<Monk>, key: Field, v: string)
    requires v in UniqueOptions(monks, key)
    ensures (key == OcupacaoOficio && v in Constants.PredefinedOccupations)
      || exists i :: 0 <= i < |monks| && Query.PassesFilter(monks[i], key, v)
  {
    if key == OcupacaoOficio {
      AllOccupationsSpec(monks);
    } else if key != Livros {
      UniqueOptionsSpec(monks, key);
      var i :| 0 <= i < |monks| && Cell(monks[i], key) == Some(v);
      ContainsSelf(Lower(v));
      assert Query.PassesFilter(monks[i], key, v);
    }
  }

  lemma ContainsSelf(s: string)
    ensures Contains(s, s)
  {
    if |s| > 0 {
      assert s[..|s|] == s;
    } else {
      ContainsEmpty(s);
    }
  }
}

/** encoder_helper: target encoding of categorical columns. For each listed
    category the code groups the rows by that column, takes the mean of
    Churn per group, and writes `<category>_Churn` holding each row's group
    mean. EncodeAll is the value-level meaning of the whole call; the
    in-place loop lives in ChurnLibrary.DataFrame.EncoderHelper. */
module Encoder {
  import opened Table
  import opened Labels

  /** The name of the column written for a category: `f"{category}_Churn"`. */
  function Derived(category: string): (r: string)
    ensures |r| == |category| + 6 && r[..|category|] == category && r[|category|..] == "_Churn"
  {
    category + "_Churn"
  }

  function DerivedNames(categories: seq<string>): (r: seq<string>)
    ensures |r| == |categories|
    ensures forall k | 0 <= k < |categories| :: r[k] == Derived(categories[k])
  {
    seq(|categories|, k requires 0 <= k < |categories| => Derived(categories[k]))
  }

  lemma DerivedInjective(a: string, b: string)
    requires Derived(a) == Derived(b)
    ensures a == b
  {
    assert |a| == |b|;
    assert a == Derived(a)[..|a|];
  }

  /** "Churn" is shorter than any derived name, so encoding never writes it. */
  lemma ChurnIsNotDerived(category: string)
    ensures Derived(category) != Churn
  {
    assert |Churn| == 5;
  }

  /** The labels of the rows whose key is v, in row order. */
  function GroupLabels(keys: seq<Value>, labels: seq<real>, v: Value): (g: seq<real>)
    requires |keys| == |labels|
    ensures |g| <= |keys|
    ensures |g| > 0 <==> v in keys
    ensures forall x | x in g :: x in labels
    decreases |keys|
  {
    if keys == [] then []
    else (if keys[0] == v then [labels[0]] else []) + GroupLabels(keys[1..], labels[1..], v)
  }

  function Sum(s: seq<real>): real
  {
    if s == [] then 0.0 else s[0] + Sum(s[1..])
  }

  lemma {:induction false} SumConcat(a: seq<real>, b: seq<real>)
    ensures Sum(a + b) == Sum(a) + Sum(b)
    decreases |a|
  {
    if a == [] {
      assert a + b == b;
    } else {
      assert (a + b)[1..] == a[1..] + b;
      SumConcat(a[1..], b);
    }
  }

  /** The sum of the labels of the rows whose key is v, taken over all rows. */
  function GroupSum(keys: seq<Value>, labels: seq<real>, v: Value): real
    requires |keys| == |labels|
    decreases |keys|
  {
    if keys == [] then 0.0
    else (if keys[0] == v then labels[0] else 0.0) + GroupSum(keys[1..], labels[1..], v)
  }

  /** The number of rows whose key is v. */
  function Count(keys: seq<Value>, v: Value): (n: nat)
    ensures n <= |keys|
  {
    if keys == [] then 0
    else (if keys[0] == v then 1 else 0) + Count(keys[1..], v)
  }

  /** The key of row i occurs at least once. */
  lemma {:induction false} CountPositive(keys: seq<Value>, i: nat)
    requires i < |keys|
    ensures Count(keys, keys[i]) > 0
  {
    if i > 0 {
      assert keys[1..][i - 1] == keys[i];
      CountPositive(keys[1..], i - 1);
    }
  }

  /** Count is the multiplicity of v in the column. */
  lemma {:induction false} CountIsMultiplicity(keys: seq<Value>, v: Value)
    ensures Count(keys, v) == multiset(keys)[v]
  {
    if keys != [] {
      assert keys == [keys[0]] + keys[1..];
      CountIsMultiplicity(keys[1..], v);
    }
  }

  /** The group of v has one label per row whose key is v, and they add up
      to the labels of all those rows. */
  lemma {:induction false} GroupLabelsMeaning(keys: seq<Value>, labels: seq<real>, v: Value)
    requires |keys| == |labels|
    ensures |GroupLabels(keys, labels, v)| == Count(keys, v)
    ensures Sum(GroupLabels(keys, labels, v)) == GroupSum(keys, labels, v)
    decreases |keys|
  {
    if keys != [] {
      var x := if keys[0] == v then labels[0] else 0.0;
      var head: seq<real> := if keys[0] == v then [labels[0]] else [];
      var rest := GroupLabels(keys[1..], labels[1..], v);
      GroupLabelsMeaning(keys[1..], labels[1..], v);
      assert Sum(head + rest) == x + Sum(rest) by {
        SumConcat(head, rest);
        assert Sum(head) == x by {
          if keys[0] == v {
            assert head[1..] == [];
          }
        }
      }
    }
  }

  /** The mean label over the rows whose key is v: the sum of their labels
      divided by the number of such rows. */
  function GroupMean(keys: seq<Value>, labels: seq<real>, v: Value): (m: real)
    requires |keys| == |labels| && v in keys
    ensures Count(keys, v) > 0
    ensures m == GroupSum(keys, labels, v) / (Count(keys, v) as real)
  {
    var g := GroupLabels(keys, labels, v);
    GroupLabelsMeaning(keys, labels, v);
    Sum(g) / (|g| as real)
  }

  /** `frame.groupby(category).mean()["Churn"]`: an entry for exactly the
      keys that occur in the column, each the sum of the labels of the rows
      with that key divided by their number. */
  function GroupMeans(keys: seq<Value>, labels: seq<real>): (m: map<Value, real>)
    requires |keys| == |labels|
    ensures forall v :: v in m <==> v in keys
    ensures forall v | v in m :: m[v] == GroupMean(keys, labels, v)
    ensures forall v | v in m :: Count(keys, v) > 0 && m[v] == GroupSum(keys, labels, v) / (Count(keys, v) as real)
  {
    map v | v in keys :: GroupMean(keys, labels, v)
  }

  /** Raising row i's label by d raises the label sum of its group by d. */
  lemma {:induction false} GroupSumRaise(keys: seq<Value>, labels: seq<real>, i: nat, d: real)
    requires |keys| == |labels| && i < |keys|
    ensures GroupSum(keys, labels[i := labels[i] + d], keys[i]) == GroupSum(keys, labels, keys[i]) + d
    decreases |keys|
  {
    var raised := labels[i := labels[i] + d];
    if i > 0 {
      assert keys[1..][i - 1] == keys[i];
      assert raised[1..] == labels[1..][i - 1 := labels[1..][i - 1] + d];
      GroupSumRaise(keys[1..], labels[1..], i - 1, d);
    } else {
      assert raised[1..] == labels[1..];
    }
  }

  /** Row i's own label is part of its encoding: raising it by d raises the
      mean of its group by d divided by the size of the group. */
  lemma OwnLabelCounted(keys: seq<Value>, labels: seq<real>, i: nat, d: real)
    requires |keys| == |labels| && i < |keys|
    ensures Count(keys, keys[i]) > 0
    ensures GroupMean(keys, labels[i := labels[i] + d], keys[i])
         == GroupMean(keys, labels, keys[i]) + d / (Count(keys, keys[i]) as real)
  {
    var v := keys[i];
    var raised := labels[i := labels[i] + d];
    var total := GroupSum(keys, labels, v);
    var n := Count(keys, v) as real;
    CountPositive(keys, i);
    GroupSumRaise(keys, labels, i, d);
    assert GroupMean(keys, raised, v) == (total + d) / n;
    assert GroupMean(keys, labels, v) == total / n;
    DivideSum(total, d, n);
  }

  lemma DivideSum(a: real, d: real, n: real)
    requires n > 0.0
    ensures (a + d) / n == a / n + d / n
  {
  }

  /** The encoded column: row i holds the mean label of the rows sharing its
      key, itself included; rows with equal keys get equal values. */
  function TargetEncode(keys: seq<Value>, labels: seq<real>): (r: seq<Value>)
    requires |keys| == |labels|
    ensures |r| == |keys|
    ensures forall i | 0 <= i < |keys| :: r[i] == Num(GroupMean(keys, labels, keys[i]))
    ensures forall i, j | 0 <= i < |keys| && 0 <= j < |keys| && keys[i] == keys[j] :: r[i] == r[j]
  {
    seq(|keys|, i requires 0 <= i < |keys| => Num(GroupMean(keys, labels, keys[i])))
  }

  lemma {:induction false} SumOfBinary(s: seq<real>)
    requires Binary(s)
    ensures 0.0 <= Sum(s) <= |s| as real
  {
    if s != [] {
      SumOfBinary(s[1..]);
    }
  }

  /** With 0/1 labels every encoded value is a rate in [0, 1]. */
  lemma RatesWithinUnitInterval(keys: seq<Value>, labels: seq<real>)
    requires |keys| == |labels| && Binary(labels)
    ensures forall i | 0 <= i < |keys| ::
      0.0 <= TargetEncode(keys, labels)[i].x <= 1.0
  {
    forall i | 0 <= i < |keys|
      ensures 0.0 <= GroupMean(keys, labels, keys[i]) <= 1.0
    {
      var g := GroupLabels(keys, labels, keys[i]);
      assert Binary(g) by {
        forall k | 0 <= k < |g| ensures g[k] == 0.0 || g[k] == 1.0 {
          assert g[k] in labels;
        }
      }
      SumOfBinary(g);
      UnitRatio(Sum(g), |g| as real);
    }
  }

  /** The labels perform_eda writes are 0 and 1, so every value the encoder
      derives from them is a churn rate in [0, 1]. */
  lemma LabelRatesWithinUnitInterval(keys: seq<Value>, flags: seq<Value>)
    requires |keys| == |flags|
    ensures Numeric(ChurnColumn(flags))
    ensures forall i | 0 <= i < |keys| ::
      0.0 <= TargetEncode(keys, Numbers(ChurnColumn(flags)))[i].x <= 1.0
  {
    ChurnColumnIsBinary(flags);
    RatesWithinUnitInterval(keys, Numbers(ChurnColumn(flags)));
  }

  lemma UnitRatio(a: real, n: real)
    requires 0.0 <= a <= n && n > 0.0
    ensures 0.0 <= a / n <= 1.0
  {
    assert a / n * n == a;
  }

  lemma {:induction false} LoneKeyGroup(keys: seq<Value>, labels: seq<real>, i: nat)
    requires |keys| == |labels| && i < |keys|
    requires forall j | 0 <= j < |keys| && j != i :: keys[j] != keys[i]
    ensures GroupLabels(keys, labels, keys[i]) == [labels[i]]
  {
    if i == 0 {
      assert keys[0] !in keys[1..] by {
        forall j | 0 <= j < |keys| - 1 ensures keys[1..][j] != keys[0] {
          assert keys[1..][j] == keys[j + 1];
        }
      }
    } else {
      assert keys[1..][i - 1] == keys[i];
      forall j | 0 <= j < |keys| - 1 && j != i - 1
        ensures keys[1..][j] != keys[1..][i - 1]
      {
        assert keys[1..][j] == keys[j + 1];
      }
      LoneKeyGroup(keys[1..], labels[1..], i - 1);
    }
  }

  /** The encoding includes the row's own label: a row alone in its group is
      encoded as exactly its own label. */
  lemma LoneRowGetsOwnLabel(keys: seq<Value>, labels: seq<real>, i: nat)
    requires |keys| == |labels| && i < |keys|
    requires forall j | 0 <= j < |keys| && j != i :: keys[j] != keys[i]
    ensures TargetEncode(keys, labels)[i] == Num(labels[i])
  {
    LoneKeyGroup(keys, labels, i);
    assert Sum([labels[i]]) == labels[i] + Sum([]);
  }

  /** g is f with at most the named columns written: same rows, the old
      columns first and in their old order, every other column untouched. */
  ghost predicate Extends(f: Frame, g: Frame, written: seq<string>)
  {
    && WellFormed(g)
    && g.height == f.height
    && f.columns <= g.columns
    && (forall c | c in f.cells && c !in written :: c in g.cells && g.cells[c] == f.cells[c])
    && (forall c | c in g.cells :: c in f.cells || c in written)
  }

  /** One turn of encoder_helper's outer loop. `groupby(category)` raises
      KeyError for an absent category; `["Churn"]` raises it when Churn is
      absent, is not numeric (pandas drops it from the means) or is the
      grouping key itself (pandas moves it into the index). */
  function EncodeOne(f: Frame, category: string): (r: Result<Frame, Error>)
    requires WellFormed(f)
    ensures r.Failure? <==> category !in f.cells || category == Churn || Churn !in f.cells || !Numeric(f.cells[Churn])
    ensures r.Failure? ==> r.error == MissingColumn(if category in f.cells then Churn else category)
    ensures r.Success? ==> Extends(f, r.value, [Derived(category)])
  {
    if category !in f.cells then Failure(MissingColumn(category))
    else if category == Churn || Churn !in f.cells || !Numeric(f.cells[Churn]) then Failure(MissingColumn(Churn))
    else Success(SetColumn(f, Derived(category), TargetEncode(f.cells[category], Numbers(f.cells[Churn]))))
  }

  /** encoder_helper(frame, categories): the frame it leaves behind and the
      error it raised, if any. A failure keeps the columns written for the
      categories before the failing one. */
  function EncodeAll(f: Frame, categories: seq<string>): (r: (Frame, Option<Error>))
    requires WellFormed(f)
    ensures Extends(f, r.0, DerivedNames(categories))
    decreases |categories|
  {
    if categories == [] then (f, None)
    else
      assert DerivedNames(categories) == [Derived(categories[0])] + DerivedNames(categories[1..]);
      match EncodeOne(f, categories[0])
      case Failure(e) => (f, Some(e))
      case Success(g) => EncodeAll(g, categories[1..])
  }

  /** No listed category is the derived column of a listed category, so the
      encoder never reads a column it writes. */
  ghost predicate NoDerivedCategory(categories: seq<string>)
  {
    forall i, j | 0 <= i < |categories| && 0 <= j < |categories| :: categories[i] != Derived(categories[j])
  }

  /** What encoder_helper needs to run to the end. */
  ghost predicate CanEncode(f: Frame, categories: seq<string>)
  {
    && (categories != [] ==> Churn in f.cells && Numeric(f.cells[Churn]))
    && Churn !in categories
    && forall c | c in categories :: c in f.cells
  }

  /** The first turn of the encoder's loop leaves its remaining inputs as
      they were. */
  lemma EncodeOneKeepsInputs(f: Frame, categories: seq<string>)
    requires WellFormed(f) && NoDerivedCategory(categories) && categories != []
    requires EncodeOne(f, categories[0]).Success?
    ensures var g := EncodeOne(f, categories[0]).value;
      && NoDerivedCategory(categories[1..])
      && CanEncode(g, categories[1..]) == CanEncode(f, categories)
      && forall d | d in categories[1..] :: (d in g.cells) == (d in f.cells)
  {
    var c := categories[0];
    var rest := categories[1..];
    var g := EncodeOne(f, c).value;
    assert c in categories;
    ChurnIsNotDerived(c);
    assert g.cells[Churn] == f.cells[Churn];
    forall d | d in rest ensures (d in g.cells) == (d in f.cells) {
      var k :| 0 <= k < |rest| && rest[k] == d;
      assert categories[k + 1] == d;
    }
    assert categories == [c] + rest;
  }

  /** The encoder succeeds exactly when its inputs are present. */
  lemma {:induction false} EncodeAllSucceeds(f: Frame, categories: seq<string>)
    requires WellFormed(f) && NoDerivedCategory(categories)
    ensures EncodeAll(f, categories).1.None? <==> CanEncode(f, categories)
    decreases |categories|
  {
    if categories != [] {
      var r := EncodeOne(f, categories[0]);
      assert categories[0] in categories;
      if r.Success? {
        EncodeOneKeepsInputs(f, categories);
        EncodeAllSucceeds(r.value, categories[1..]);
      }
    }
  }

  /** When the encoder fails it names Churn, which is then absent, not
      numeric or itself listed, or a listed category that the frame lacks. */
  lemma {:induction false} EncodeAllFailure(f: Frame, categories: seq<string>)
    requires WellFormed(f) && NoDerivedCategory(categories)
    requires EncodeAll(f, categories).1.Some?
    ensures var name := EncodeAll(f, categories).1.value.name;
      || (name == Churn && (Churn !in f.cells || !Numeric(f.cells[Churn]) || Churn in categories))
      || (name in categories && name !in f.cells)
    decreases |categories|
  {
    var c := categories[0];
    var r := EncodeOne(f, c);
    assert c in categories;
    if r.Success? {
      EncodeOneKeepsInputs(f, categories);
      ChurnIsNotDerived(c);
      assert r.value.cells[Churn] == f.cells[Churn];
      EncodeAllFailure(r.value, categories[1..]);
    }
  }

  /** A frame that already holds the encoding of every listed category is
      left as it is by the encoder. */
  lemma {:induction false} EncodeAllFixed(h: Frame, categories: seq<string>)
    requires WellFormed(h) && Churn !in categories
    requires categories != [] ==> Churn in h.cells && Numeric(h.cells[Churn])
    requires forall c | c in categories ::
      && c in h.cells && Derived(c) in h.cells
      && h.cells[Derived(c)] == TargetEncode(h.cells[c], Numbers(h.cells[Churn]))
    ensures EncodeAll(h, categories) == (h, None)
    decreases |categories|
  {
    if categories != [] {
      var c := categories[0];
      var d := Derived(c);
      assert c in categories;
      assert h.cells[d := h.cells[d]] == h.cells;
      assert EncodeOne(h, c) == Success(h);
      EncodeAllFixed(h, categories[1..]);
    }
  }

  /** After a successful run every listed category C has its column C_Churn,
      and row i of it is the mean Churn of the rows whose C equals row i's C,
      computed on the frame the encoder was given. */
  lemma {:induction false} EncodeAllRates(f: Frame, categories: seq<string>)
    requires WellFormed(f) && NoDerivedCategory(categories) && CanEncode(f, categories)
    ensures forall k | 0 <= k < |categories| ::
      && Derived(categories[k]) in EncodeAll(f, categories).0.cells
      && EncodeAll(f, categories).0.cells[Derived(categories[k])]
         == TargetEncode(f.cells[categories[k]], Numbers(f.cells[Churn]))
    decreases |categories|
  {
    if categories != [] {
      var c := categories[0];
      var rest := categories[1..];
      var d := Derived(c);
      var labels := Numbers(f.cells[Churn]);
      assert c in categories;
      var f1 := SetColumn(f, d, TargetEncode(f.cells[c], labels));
      assert EncodeOne(f, c) == Success(f1);
      ChurnIsNotDerived(c);
      assert NoDerivedCategory(rest);
      forall e | e in rest ensures e in f1.cells && f1.cells[e] == f.cells[e] {
        var k :| 0 <= k < |rest| && rest[k] == e;
        assert categories[k + 1] == e;
      }
      EncodeAllRates(f1, rest);
      var g := EncodeAll(f1, rest).0;
      assert EncodeAll(f, categories).0 == g;
      forall k | 0 <= k < |categories|
        ensures Derived(categories[k]) in g.cells
        ensures g.cells[Derived(categories[k])] == TargetEncode(f.cells[categories[k]], labels)
      {
        if k > 0 {
          assert categories[k] == rest[k - 1];
        } else if d in DerivedNames(rest) {
          var j :| 0 <= j < |rest| && DerivedNames(rest)[j] == d;
          DerivedInjective(rest[j], c);
          assert rest[j] == c;
        }
      }
    }
  }

  /** The encoder only writes derived columns, so Churn and the listed
      categories keep their cells. */
  lemma EncodeAllKeepsInputs(f: Frame, categories: seq<string>)
    requires WellFormed(f) && NoDerivedCategory(categories)
    ensures var g := EncodeAll(f, categories).0;
      && (Churn in f.cells ==> Churn in g.cells && g.cells[Churn] == f.cells[Churn])
      && forall c | c in categories && c in f.cells :: c in g.cells && g.cells[c] == f.cells[c]
  {
    var names := DerivedNames(categories);
    assert Churn !in names by {
      forall k | 0 <= k < |categories| ensures names[k] != Churn {
        ChurnIsNotDerived(categories[k]);
      }
    }
    forall c | c in categories ensures c !in names {
      var k :| 0 <= k < |categories| && categories[k] == c;
    }
  }

  /** encoder_helper is idempotent: running it again with the same list
      gives back the same frame. */
  lemma EncoderIdempotent(f: Frame, categories: seq<string>)
    requires WellFormed(f) && NoDerivedCategory(categories)
    requires EncodeAll(f, categories).1 == None
    ensures EncodeAll(EncodeAll(f, categories).0, categories) == EncodeAll(f, categories)
  {
    if categories == [] {
      return;
    }
    EncodeAllSucceeds(f, categories);
    EncodeAllRates(f, categories);
    EncodeAllKeepsInputs(f, categories);
    var g := EncodeAll(f, categories).0;
    forall c | c in categories
      ensures c in g.cells && Derived(c) in g.cells
      ensures g.cells[Derived(c)] == TargetEncode(g.cells[c], Numbers(g.cells[Churn]))
    {
      var k :| 0 <= k < |categories| && categories[k] == c;
    }
    EncodeAllFixed(g, categories);
  }

  /** One turn of the encoder's loop: the first category is encoded, or its
      error ends the run with the frame as it was. */
  lemma EncodeAllStep(f: Frame, categories: seq<string>)
    requires WellFormed(f) && categories != []
    ensures EncodeOne(f, categories[0]).Failure? ==>
      EncodeAll(f, categories) == (f, Some(EncodeOne(f, categories[0]).error))
    ensures EncodeOne(f, categories[0]).Success? ==>
      EncodeAll(f, categories) == EncodeAll(EncodeOne(f, categories[0]).value, categories[1..])
  {
  }
}

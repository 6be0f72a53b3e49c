/** Queries and their meaning: the row-id tuples that satisfy every predicate. */
module QuerySpec {
  import opened Words
  import opened Bags
  import opened JoinSpec
  import opened InterList

  const LESS: nat := 1
  const GREATER: nat := 2
  const EQUAL: nat := 3

  predicate ApplyFilter(value: Word, op: nat, target: Word) {
    if op == LESS then value < target else if op == GREATER then value > target else value == target
  }

  /** Whatever the value and the constant, exactly one of the three operators admits the value, and any
      other operator admits what EQUAL does. */
  lemma OneOperatorAdmits(v: Word, t: Word, op: nat)
    ensures ApplyFilter(v, LESS, t) ==> !ApplyFilter(v, GREATER, t) && !ApplyFilter(v, EQUAL, t)
    ensures ApplyFilter(v, GREATER, t) ==> !ApplyFilter(v, EQUAL, t)
    ensures ApplyFilter(v, LESS, t) || ApplyFilter(v, GREATER, t) || ApplyFilter(v, EQUAL, t)
    ensures op !in {LESS, GREATER} ==> (ApplyFilter(v, op, t) <==> ApplyFilter(v, EQUAL, t))
  {
  }

  /** LESS is the order of the words, and GREATER the reverse of it. */
  lemma OperatorsOrder(v: Word, t: Word, u: Word)
    ensures ApplyFilter(v, LESS, t) <==> ApplyFilter(t, GREATER, v)
    ensures !ApplyFilter(v, LESS, v) && !ApplyFilter(v, GREATER, v) && ApplyFilter(v, EQUAL, v)
    ensures ApplyFilter(v, LESS, t) && ApplyFilter(t, LESS, u) ==> ApplyFilter(v, LESS, u)
    ensures v + 1 < TWO_64 ==> ApplyFilter(v, LESS, v + 1)
  {
  }

  /** A column of one of the query's relations. */
  datatype ColRel = ColRel(rel: nat, col: nat)

  datatype Pred = Filter(participant: ColRel, op: nat, value: Word) | Join(participant1: ColRel, participant2: ColRel) {
    /** The relations the predicate is about. */
    function Rels(): set<nat> {
      if Filter? then {participant.rel} else {participant1.rel, participant2.rel}
    }

    predicate IsSelfJoin() {
      Join? && participant1.rel == participant2.rel
    }
  }

  /** A row id for each of some relations. */
  type Assignment = map<nat, nat>

  /** The database and, for each relation of the query, the base relation it stands for. */
  datatype Query = Query(db: Database, rels: seq<nat>) {

    /** Base relations have columns, all of the same non-zero length. */
    predicate Valid() {
      && (forall r :: 0 <= r < |db| ==> |db[r]| > 0 && |db[r][0]| > 0)
      && (forall r, c :: 0 <= r < |db| && 0 <= c < |db[r]| ==> |db[r][c]| == |db[r][0]|)
      && (forall q :: 0 <= q < |rels| ==> rels[q] < |db|)
    }

    function Rows(rel: nat): (n: nat)
      requires Valid() && rel < |rels|
      ensures n > 0
    {
      |db[rels[rel]][0]|
    }

    predicate HasCol(c: ColRel)
      requires Valid()
    {
      c.rel < |rels| && c.col < |db[rels[c.rel]]|
    }

    function Col(c: ColRel): (values: seq<Word>)
      requires Valid() && HasCol(c)
      ensures |values| == Rows(c.rel)
    {
      db[rels[c.rel]][c.col]
    }

    predicate HasPred(p: Pred)
      requires Valid()
    {
      if p.Filter? then HasCol(p.participant) else HasCol(p.participant1) && HasCol(p.participant2)
    }

    /** The row ids exist. */
    predicate InRange(m: Assignment)
      requires Valid()
    {
      forall r :: r in m ==> r < |rels| && m[r] < Rows(r)
    }

    /** The predicate holds of the rows assigned. */
    predicate Holds(p: Pred, m: Assignment)
      requires Valid() && HasPred(p) && p.Rels() <= m.Keys && InRange(m)
    {
      match p
      case Filter(c, op, value) => ApplyFilter(Col(c)[m[c.rel]], op, value)
      case Join(c1, c2) => Col(c1)[m[c1.rel]] == Col(c2)[m[c2.rel]]
    }

    /** `m` assigns existing rows to the predicate's relations, and the predicate holds of them. */
    predicate Admits(p: Pred, m: Assignment)
      requires Valid() && HasPred(p)
    {
      p.Rels() <= m.Keys && InRange(m) && Holds(p, m)
    }

    /** `m` assigns existing rows to exactly `on`, and satisfies every predicate about them. */
    ghost predicate Satisfies(preds: set<Pred>, on: set<nat>, m: Assignment)
      requires Valid() && forall p :: p in preds ==> HasPred(p)
    {
      && m.Keys == on
      && InRange(m)
      && forall p :: p in preds && p.Rels() <= on ==> Admits(p, m)
    }
  }

  function RelSet(inter: Inter): set<nat> {
    set r | r in inter.joinedRels
  }

  ghost predicate AllIn(q: Query, preds: set<Pred>)
    requires q.Valid()
  {
    forall p :: p in preds ==> q.HasPred(p)
  }

  /** The rows are, as a bag, the set of assignments to the relations `on` that satisfy the
      predicates: each one is a row, once. */
  ghost predicate ExactRows(q: Query, preds: set<Pred>, on: set<nat>, rows: seq<Assignment>)
    requires q.Valid() && AllIn(q, preds)
  {
    && NoDuplicates(rows)
    && forall m :: m in rows <==> q.Satisfies(preds, on, m)
  }

  /** An intermediate holds exactly what its relations and the predicates applied so far admit. */
  ghost predicate Exact(q: Query, applied: set<Pred>, inter: Inter)
    requires q.Valid() && AllIn(q, applied)
  {
    inter.Valid() && ExactRows(q, applied, RelSet(inter), inter.Rows())
  }

  /** A relation that is in no intermediate yet, as if it were one: all its rows. */
  function Untouched(q: Query, rel: nat): seq<Assignment>
    requires q.Valid() && rel < |q.rels|
  {
    seq(q.Rows(rel), i requires 0 <= i => map[rel := i])
  }

  lemma UntouchedExact(q: Query, applied: set<Pred>, rel: nat)
    requires q.Valid() && rel < |q.rels| && AllIn(q, applied)
    requires forall p :: p in applied ==> rel !in p.Rels()
    ensures ExactRows(q, applied, {rel}, Untouched(q, rel))
  {
    var rows := Untouched(q, rel);
    forall i, j | 0 <= i < j < |rows|
      ensures rows[i] != rows[j]
    {
      assert rows[i][rel] == i && rows[j][rel] == j;
    }
    forall m: Assignment
      ensures m in rows <==> q.Satisfies(applied, {rel}, m)
    {
      if q.Satisfies(applied, {rel}, m) {
        assert rel in m;
        assert m == map[rel := m[rel]] == rows[m[rel]];
      }
    }
  }

  /** A predicate about other relations does not change what an intermediate should hold. */
  lemma OtherPredicate(q: Query, applied: set<Pred>, on: set<nat>, rows: seq<Assignment>, p: Pred)
    requires q.Valid() && AllIn(q, applied) && q.HasPred(p)
    requires ExactRows(q, applied, on, rows) && !(p.Rels() <= on)
    ensures ExactRows(q, applied + {p}, on, rows)
  {
    hide Query.Admits;
    forall m: Assignment
      ensures q.Satisfies(applied + {p}, on, m) <==> q.Satisfies(applied, on, m)
    {
    }
  }

  /** The positions, each once, of the rows that a predicate admits. */
  ghost predicate Survivors(q: Query, rows: seq<Assignment>, p: Pred, at: seq<nat>)
    requires q.Valid() && q.HasPred(p)
  {
    && NoDuplicates(at)
    && (forall k :: k in at <==> 0 <= k < |rows| && q.Admits(p, rows[k]))
  }

  /** The three filters on one column and constant divide the rows among them. */
  lemma FiltersPartition(q: Query, rows: seq<Assignment>, c: ColRel, value: Word,
                         less: seq<nat>, greater: seq<nat>, equal: seq<nat>)
    requires q.Valid() && q.HasCol(c) && forall k :: 0 <= k < |rows| ==> c.rel in rows[k] && q.InRange(rows[k])
    requires Survivors(q, rows, Filter(c, LESS, value), less)
    requires Survivors(q, rows, Filter(c, GREATER, value), greater)
    requires Survivors(q, rows, Filter(c, EQUAL, value), equal)
    ensures NoDuplicates(less + greater + equal)
    ensures forall k: nat :: k in less + greater + equal <==> k < |rows|
    ensures |less| + |greater| + |equal| == |rows|
  {
    forall k: nat | k < |rows|
      ensures ThreeWays(k, less, greater, equal)
    {
      RowThreeWays(q, rows, c, value, less, greater, equal, k);
    }
    hide *;
    InRangeOnly(q, rows, Filter(c, LESS, value), less);
    InRangeOnly(q, rows, Filter(c, GREATER, value), greater);
    InRangeOnly(q, rows, Filter(c, EQUAL, value), equal);
    ThreeParts(|rows|, less, greater, equal);
  }

  /** The number is in exactly one of the three. */
  predicate ThreeWays(k: nat, a: seq<nat>, b: seq<nat>, c: seq<nat>) {
    (k in a || k in b || k in c) && !(k in a && k in b) && !(k in a && k in c) && !(k in b && k in c)
  }

  lemma RowThreeWays(q: Query, rows: seq<Assignment>, c: ColRel, value: Word,
                     less: seq<nat>, greater: seq<nat>, equal: seq<nat>, k: nat)
    requires q.Valid() && q.HasCol(c) && k < |rows| && c.rel in rows[k] && q.InRange(rows[k])
    requires Survivors(q, rows, Filter(c, LESS, value), less)
    requires Survivors(q, rows, Filter(c, GREATER, value), greater)
    requires Survivors(q, rows, Filter(c, EQUAL, value), equal)
    ensures ThreeWays(k, less, greater, equal)
  {
    FilterAdmits(q, c, LESS, value, rows[k]);
    FilterAdmits(q, c, GREATER, value, rows[k]);
    FilterAdmits(q, c, EQUAL, value, rows[k]);
    OneOperatorAdmits(q.Col(c)[rows[k][c.rel]], value, EQUAL);
    hide ApplyFilter, Query.Admits;
  }

  lemma InRangeOnly(q: Query, rows: seq<Assignment>, p: Pred, at: seq<nat>)
    requires q.Valid() && q.HasPred(p) && Survivors(q, rows, p, at)
    ensures NoDuplicates(at) && forall k :: k in at ==> k < |rows|
  {
  }

  lemma ThreeParts(n: nat, a: seq<nat>, b: seq<nat>, c: seq<nat>)
    requires NoDuplicates(a) && NoDuplicates(b) && NoDuplicates(c)
    requires forall k :: k in a || k in b || k in c ==> k < n
    requires forall k: nat :: k < n ==> ThreeWays(k, a, b, c)
    ensures NoDuplicates(a + b + c) && |a| + |b| + |c| == n
    ensures forall k: nat :: k in a + b + c <==> k < n
  {
    hide NoDuplicates;
    forall k | k in a
      ensures k !in b
    {
      assert ThreeWays(k, a, b, c);
    }
    AppendDistinct(a, b);
    forall k | k in a + b
      ensures k !in c
    {
      assert ThreeWays(k, a, b, c);
    }
    AppendDistinct(a + b, c);
    var all := a + b + c;
    DistinctLength(all);
    forall k: nat | k < n
      ensures k in all
    {
      assert ThreeWays(k, a, b, c);
    }
    var held := set k: nat | k in all;
    assert |held| == |all|;
    assert held == Below(n);
  }

  /** A filter admits a row by the value that the row refers to. */
  lemma FilterAdmits(q: Query, c: ColRel, op: nat, value: Word, m: Assignment)
    requires q.Valid() && q.HasCol(c) && c.rel in m && q.InRange(m)
    ensures q.Admits(Filter(c, op, value), m) <==> ApplyFilter(q.Col(c)[m[c.rel]], op, value)
  {
  }

  /** Keeping exactly the rows that satisfy one more predicate. */
  lemma SelectExact(q: Query, applied: set<Pred>, on: set<nat>, rows: seq<Assignment>, p: Pred,
                    at: seq<nat>, kept: seq<Assignment>)
    requires q.Valid() && AllIn(q, applied) && q.HasPred(p) && ExactRows(q, applied, on, rows)
    requires p.Rels() <= on && Survivors(q, rows, p, at)
    requires |kept| == |at| && forall k :: 0 <= k < |at| ==> at[k] < |rows| && kept[k] == rows[at[k]]
    ensures ExactRows(q, applied + {p}, on, kept)
  {
    hide Query.Admits;
    forall m: Assignment
      ensures m in kept <==> q.Satisfies(applied + {p}, on, m)
    {
      if m in kept {
        var k :| 0 <= k < |kept| && kept[k] == m;
        assert at[k] in at && m in rows;
      }
      if q.Satisfies(applied + {p}, on, m) {
        assert q.Satisfies(applied, on, m);
        var i :| 0 <= i < |rows| && rows[i] == m;
        assert i in at;
        var k :| 0 <= k < |at| && at[k] == i;
        assert kept[k] == m;
      }
    }
  }

  function Restrict(m: Assignment, on: set<nat>): Assignment {
    map r | r in m && r in on :: m[r]
  }

  /** Every predicate applied so far lies within one side. */
  ghost predicate NoneCrosses(applied: set<Pred>, a: set<nat>, b: set<nat>) {
    forall p :: p in applied && p.Rels() <= a + b ==> p.Rels() <= a || p.Rels() <= b
  }

  /** The predicate is about both sides, and about nothing else. */
  predicate Between(p: Pred, a: set<nat>, b: set<nat>) {
    p.Rels() <= a + b && !(p.Rels() <= a) && !(p.Rels() <= b)
  }

  /** A predicate about one part of an assignment is admitted by the whole as by the part. */
  lemma AdmitsPart(q: Query, p: Pred, m: Assignment, on: set<nat>)
    requires q.Valid() && q.HasPred(p) && p.Rels() <= on && on <= m.Keys && q.InRange(m)
    ensures q.Admits(p, m) <==> q.Admits(p, Restrict(m, on))
  {
  }

  /** An assignment to two disjoint sides satisfies what each side's part satisfies. */
  lemma SatisfiesParts(q: Query, applied: set<Pred>, p: Pred, a: set<nat>, b: set<nat>, m: Assignment)
    requires q.Valid() && AllIn(q, applied) && q.HasPred(p)
    requires a !! b && NoneCrosses(applied, a, b) && Between(p, a, b) && m.Keys == a + b && q.InRange(m)
    ensures q.Satisfies(applied + {p}, a + b, m)
       <==> q.Satisfies(applied, a, Restrict(m, a)) && q.Satisfies(applied, b, Restrict(m, b)) && q.Admits(p, m)
  {
    forall x | x in applied && x.Rels() <= a
      ensures q.Admits(x, m) <==> q.Admits(x, Restrict(m, a))
    {
      AdmitsPart(q, x, m, a);
    }
    forall x | x in applied && x.Rels() <= b
      ensures q.Admits(x, m) <==> q.Admits(x, Restrict(m, b))
    {
      AdmitsPart(q, x, m, b);
    }
    hide Query.Admits;
  }

  /** The row pairs, each once, that a predicate between two sides admits. */
  ghost predicate Matched(q: Query, a: seq<Assignment>, b: seq<Assignment>, p: Pred, pairs: seq<(nat, nat)>)
    requires q.Valid() && q.HasPred(p)
  {
    && NoDuplicates(pairs)
    && (forall i: nat, j: nat :: (i, j) in pairs <==> i < |a| && j < |b| && q.Admits(p, a[i] + b[j]))
  }

  /** The merged rows are the pairs' rows side by side. */
  ghost predicate SideBySide(a: seq<Assignment>, b: seq<Assignment>, pairs: seq<(nat, nat)>, rows: seq<Assignment>) {
    && |rows| == |pairs|
    && forall k :: 0 <= k < |pairs| ==>
         pairs[k].0 < |a| && pairs[k].1 < |b| && rows[k] == a[pairs[k].0] + b[pairs[k].1]
  }

  /** A merged row splits into the rows it was made of. */
  lemma SplitRow(q: Query, applied: set<Pred>, on: set<nat>, on': set<nat>,
                 a: seq<Assignment>, b: seq<Assignment>, i: nat, j: nat)
    requires q.Valid() && AllIn(q, applied) && on !! on'
    requires ExactRows(q, applied, on, a) && ExactRows(q, applied, on', b) && i < |a| && j < |b|
    ensures Restrict(a[i] + b[j], on) == a[i] && Restrict(a[i] + b[j], on') == b[j]
    ensures (a[i] + b[j]).Keys == on + on' && q.InRange(a[i] + b[j])
    ensures q.Satisfies(applied, on, a[i]) && q.Satisfies(applied, on', b[j])
  {
    hide Query.Admits;
    assert a[i] in a && b[j] in b;
  }

  /** Joining two disjoint sides by a predicate between them. */
  lemma MergeExact(q: Query, applied: set<Pred>, on: set<nat>, on': set<nat>, a: seq<Assignment>, b: seq<Assignment>,
                   p: Pred, pairs: seq<(nat, nat)>, rows: seq<Assignment>)
    requires q.Valid() && AllIn(q, applied) && q.HasPred(p) && on !! on'
    requires ExactRows(q, applied, on, a) && ExactRows(q, applied, on', b)
    requires NoneCrosses(applied, on, on') && Between(p, on, on')
    requires Matched(q, a, b, p, pairs) && SideBySide(a, b, pairs, rows)
    ensures ExactRows(q, applied + {p}, on + on', rows)
  {
    hide Query.Admits, Query.Satisfies, Restrict, Between;
    forall i, j | 0 <= i < j < |rows|
      ensures rows[i] != rows[j]
    {
      SplitRow(q, applied, on, on', a, b, pairs[i].0, pairs[i].1);
      SplitRow(q, applied, on, on', a, b, pairs[j].0, pairs[j].1);
    }
    forall m: Assignment
      ensures m in rows <==> q.Satisfies(applied + {p}, on + on', m)
    {
      if m in rows {
        var k :| 0 <= k < |rows| && rows[k] == m;
        assert (pairs[k].0, pairs[k].1) in pairs;
        SplitRow(q, applied, on, on', a, b, pairs[k].0, pairs[k].1);
        SatisfiesParts(q, applied, p, on, on', m);
      }
      if q.Satisfies(applied + {p}, on + on', m) {
        var i, j := FindParts(q, applied, on, on', a, b, p, m);
        assert (i, j) in pairs;
        var k :| 0 <= k < |pairs| && pairs[k] == (i, j);
        assert rows[k] == m;
      }
    }
  }

  /** The rows that a satisfying assignment to both sides is made of. */
  lemma FindParts(q: Query, applied: set<Pred>, on: set<nat>, on': set<nat>, a: seq<Assignment>, b: seq<Assignment>,
                  p: Pred, m: Assignment) returns (i: nat, j: nat)
    requires q.Valid() && AllIn(q, applied) && q.HasPred(p) && on !! on'
    requires ExactRows(q, applied, on, a) && ExactRows(q, applied, on', b)
    requires NoneCrosses(applied, on, on') && Between(p, on, on') && q.Satisfies(applied + {p}, on + on', m)
    ensures i < |a| && j < |b| && m == a[i] + b[j] && q.Admits(p, m)
  {
    SatisfiesParts(q, applied, p, on, on', m);
    hide Query.Admits;
    assert Restrict(m, on) in a && Restrict(m, on') in b;
    i :| 0 <= i < |a| && a[i] == Restrict(m, on);
    j :| 0 <= j < |b| && b[j] == Restrict(m, on');
  }
}

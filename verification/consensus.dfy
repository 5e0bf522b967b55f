/** The frequency vote of convertProrosalToObject (convert-md-to-json.js):
    several extraction attempts for one segment are reconciled into one list
    of records. The structural fields come from the first attempt to finish
    without failing; each of the five voted fields is replaced by the plurality value of that
    field, counted over every record of every successful attempt. */
module Consensus {
  import opened Records
  import opened Tally

  /** One extraction attempt as the pool of attempts yields it: the records,
      or `None` when the call threw and the attempt returned null. */
  type Attempt = Option<seq<Proposal>>

  predicate AllValid(rs: seq<Proposal>) {
    forall i :: 0 <= i < |rs| ==> SchemaValid(rs[i])
  }

  /** Every attempt that returned something satisfies the extraction schema. */
  predicate AttemptsValid(attempts: seq<Attempt>) {
    forall a :: 0 <= a < |attempts| && attempts[a].Some? ==> AllValid(attempts[a].value)
  }

  /** `if (result) results.push(result)`: the attempts that did not fail, in
      the order they finished. An empty list is truthy and is kept. */
  function Successes(attempts: seq<Attempt>): (rs: seq<seq<Proposal>>)
    ensures |rs| <= |attempts|
    ensures |rs| == 0 <==> forall a :: 0 <= a < |attempts| ==> attempts[a].None?
    ensures AttemptsValid(attempts) ==> forall r :: 0 <= r < |rs| ==> AllValid(rs[r])
    ensures forall r :: 0 <= r < |rs| ==> Some(rs[r]) in attempts
  {
    if |attempts| == 0 then []
    else
      var rest := Successes(attempts[1..]);
      assert forall a :: 1 <= a < |attempts| ==> attempts[a] == attempts[1..][a - 1];
      assert forall r :: 0 <= r < |rest| ==> Some(rest[r]) in attempts[1..];
      match attempts[0]
      case None => rest
      case Some(records) => [records] + rest
  }

  /** `results[0]` is the first attempt to finish without failing: the
      attempts that failed before it are dropped. */
  lemma {:induction false} FirstSuccess(attempts: seq<Attempt>, k: nat, records: seq<Proposal>)
    requires k < |attempts| && attempts[k] == Some(records)
    requires forall j :: 0 <= j < k ==> attempts[j].None?
    ensures |Successes(attempts)| > 0 && Successes(attempts)[0] == records
    decreases k
  {
    if k > 0 {
      assert attempts[1..][k - 1] == attempts[k];
      FirstSuccess(attempts[1..], k - 1, records);
    }
  }

  /** A failed attempt contributes nothing; one that returned records, even
      none, contributes them. */
  lemma SuccessesOne(x: Attempt)
    ensures Successes([x]) == if x.Some? then [x.value] else []
  {
    assert [x][1..] == [];
  }

  /** Attempts are filtered one at a time: every success is kept, in the
      order the attempts finished. */
  lemma {:induction false} SuccessesAppend(a: seq<Attempt>, b: seq<Attempt>)
    ensures Successes(a + b) == Successes(a) + Successes(b)
    decreases |a|
  {
    if |a| == 0 {
      assert a + b == b;
    } else {
      assert (a + b)[0] == a[0];
      assert (a + b)[1..] == a[1..] + b;
      SuccessesAppend(a[1..], b);
    }
  }

  /** What the schema allows in one voted field. */
  predicate FieldValid(f: VotedField, v: Value) {
    if f == Action then v.Str? && v.s in Actions else IsAmount(v)
  }

  function FieldValues(records: seq<Proposal>, f: VotedField): (vs: seq<Value>)
    ensures |vs| == |records|
    ensures forall i :: 0 <= i < |records| ==> vs[i] == Get(records[i], f)
  {
    seq(|records|, i requires 0 <= i < |records| => Get(records[i], f))
  }

  /** Every value of field `f`, in the order the counting loop visits them:
      attempt by attempt, record by record. */
  function Pool(rs: seq<seq<Proposal>>, f: VotedField): (vs: seq<Value>)
    ensures |rs| > 0 ==> |vs| >= |rs[0]|
    ensures |rs| > 0 ==> vs[..|rs[0]|] == FieldValues(rs[0], f)
    ensures (forall r :: 0 <= r < |rs| ==> AllValid(rs[r])) ==> forall k :: 0 <= k < |vs| ==> FieldValid(f, vs[k])
  {
    if |rs| == 0 then []
    else
      var head := FieldValues(rs[0], f);
      assert AllValid(rs[0]) ==> forall k :: 0 <= k < |head| ==> FieldValid(f, head[k]);
      head + Pool(rs[1..], f)
  }

  /** The ballot of a single attempt is its records' values, in record order. */
  lemma PoolOne(records: seq<Proposal>, f: VotedField)
    ensures Pool([records], f) == FieldValues(records, f)
  {
    assert [records][1..] == [];
  }

  /** Attempts are counted one after another: the ballot of two runs of
      attempts is the first run's ballot followed by the second's. */
  lemma {:induction false} PoolAppend(a: seq<seq<Proposal>>, b: seq<seq<Proposal>>, f: VotedField)
    ensures Pool(a + b, f) == Pool(a, f) + Pool(b, f)
    decreases |a|
  {
    if |a| == 0 {
      assert a + b == b;
    } else {
      assert (a + b)[0] == a[0];
      assert (a + b)[1..] == a[1..] + b;
      PoolAppend(a[1..], b, f);
    }
  }

  /** So the count of a value over all attempts is the sum of its counts
      over the parts. */
  lemma PoolCountAppend(a: seq<seq<Proposal>>, b: seq<seq<Proposal>>, f: VotedField, v: Value)
    ensures Count(Pool(a + b, f), v) == Count(Pool(a, f), v) + Count(Pool(b, f), v)
  {
    PoolAppend(a, b, f);
    CountConcat(Pool(a, f), Pool(b, f), v);
  }

  /** The structural fields two records share. */
  predicate SameStructure(p: Proposal, q: Proposal) {
    && p.category == q.category && p.content == q.content && p.proposer == q.proposer
    && p.coSigners == q.coSigners && p.remarks == q.remarks
  }

  /** All five voted fields of `p` decided, each by its own pool. */
  function VoteAll(p: Proposal, pools: VotedField -> seq<Value>): (q: Proposal)
    requires forall f :: |pools(f)| > 0
    ensures SameStructure(q, p)
    ensures forall f :: IsPluralityWinner(pools(f), Get(q, f))
  {
    var cost, action := Plurality(pools(Cost)), Plurality(pools(Action));
    var frozen, deleted, added := Plurality(pools(Frozen)), Plurality(pools(Deleted)), Plurality(pools(Added));
    var q := p.(cost := cost, action := action, frozen := frozen, deleted := deleted, added := added);
    assert forall f :: IsPluralityWinner(pools(f), Get(q, f)) by {
      forall f
        ensures IsPluralityWinner(pools(f), Get(q, f))
      {
        if f == Cost {
          assert Get(q, f) == cost;
        } else if f == Action {
          assert Get(q, f) == action;
        } else if f == Frozen {
          assert Get(q, f) == frozen;
        } else if f == Deleted {
          assert Get(q, f) == deleted;
        } else {
          assert Get(q, f) == added;
        }
      }
    }
    q
  }

  /** A winner drawn from schema-valid values keeps the record schema-valid. */
  lemma VoteAllKeepsSchema(p: Proposal, pools: VotedField -> seq<Value>, q: Proposal)
    requires SchemaValid(p)
    requires forall f :: forall k :: 0 <= k < |pools(f)| ==> FieldValid(f, pools(f)[k])
    requires SameStructure(q, p)
    requires forall f :: IsPluralityWinner(pools(f), Get(q, f))
    ensures SchemaValid(q)
  {
    forall f
      ensures FieldValid(f, Get(q, f))
    {
      var w := Get(q, f);
      assert w in pools(f);
      var k :| 0 <= k < |pools(f)| && pools(f)[k] == w;
    }
    assert FieldValid(Action, Get(q, Action));
    assert FieldValid(Cost, Get(q, Cost)) && FieldValid(Frozen, Get(q, Frozen));
    assert FieldValid(Deleted, Get(q, Deleted)) && FieldValid(Added, Get(q, Added));
  }

  /** One record of the first attempt with its voted fields decided by `pools`. */
  function Decide(p: Proposal, pools: VotedField -> seq<Value>): (q: Proposal)
    requires SchemaValid(p)
    requires forall f :: |pools(f)| > 0
    requires forall f :: forall k :: 0 <= k < |pools(f)| ==> FieldValid(f, pools(f)[k])
    ensures SameStructure(q, p) && SchemaValid(q)
    ensures forall f :: IsPluralityWinner(pools(f), Get(q, f))
  {
    var q := VoteAll(p, pools);
    VoteAllKeepsSchema(p, pools, q);
    q
  }

  /** convertProrosalToObject after its attempts are in: nothing when every
      attempt failed, otherwise the records of the first attempt to finish
      without failing, with each voted field set to the plurality value of that field over all records
      of all successful attempts. */
  function Consensus(attempts: seq<Attempt>): (out: seq<Proposal>)
    requires AttemptsValid(attempts)
    ensures |Successes(attempts)| == 0 ==> out == []
    ensures |Successes(attempts)| > 0 ==> |out| == |Successes(attempts)[0]|
    ensures forall i :: 0 <= i < |out| ==> SameStructure(out[i], Successes(attempts)[0][i])
    ensures forall i, f :: 0 <= i < |out| ==> IsPluralityWinner(Pool(Successes(attempts), f), Get(out[i], f))
    ensures AllValid(out)
  {
    var rs := Successes(attempts);
    if |rs| == 0 then []
    else
      var base := rs[0];
      var pools := (f: VotedField) => Pool(rs, f);
      seq(|base|, i requires 0 <= i < |base| => Decide(base[i], pools))
  }

  /** Every output record carries the same voted values: the vote does not
      look at positions. */
  lemma PooledVoteIgnoresPosition(attempts: seq<Attempt>, i: nat, j: nat, f: VotedField)
    requires AttemptsValid(attempts)
    requires i < |Consensus(attempts)| && j < |Consensus(attempts)|
    ensures Get(Consensus(attempts)[i], f) == Get(Consensus(attempts)[j], f)
  {
    var vs := Pool(Successes(attempts), f);
    PluralityWinnerUnique(vs, Get(Consensus(attempts)[i], f), Get(Consensus(attempts)[j], f));
  }

  /** The first attempt to finish without failing sets the length, even when
      it found no record and a later attempt did. */
  lemma EmptyFirstAttemptWins(attempts: seq<Attempt>, k: nat)
    requires AttemptsValid(attempts)
    requires k < |attempts| && attempts[k] == Some([])
    requires forall j :: 0 <= j < k ==> attempts[j].None?
    ensures Consensus(attempts) == []
  {
    FirstSuccess(attempts, k, []);
  }

  /** When every attempt failed there is nothing to save. */
  lemma AllFailedGivesNothing(attempts: seq<Attempt>)
    requires forall a :: 0 <= a < |attempts| ==> attempts[a].None?
    ensures AttemptsValid(attempts) && Consensus(attempts) == []
  {
  }

  /** Field `f` of the record at position `i` of every successful attempt that
      has one, in attempt order: the ballot of a per-position vote. */
  function PositionPool(rs: seq<seq<Proposal>>, i: nat, f: VotedField): (vs: seq<Value>)
    ensures |vs| <= |rs|
    ensures |rs| > 0 && i < |rs[0]| ==> |vs| > 0 && vs[0] == Get(rs[0][i], f)
    ensures (forall r :: 0 <= r < |rs| ==> AllValid(rs[r])) ==> forall k :: 0 <= k < |vs| ==> FieldValid(f, vs[k])
  {
    if |rs| == 0 then []
    else
      var rest := PositionPool(rs[1..], i, f);
      assert forall r :: 1 <= r < |rs| ==> rs[r] == rs[1..][r - 1];
      if i < |rs[0]| then [Get(rs[0][i], f)] + rest else rest
  }

  /** When every attempt that has a record at position `i` agrees on `f`,
      that value is the whole ballot. */
  lemma {:induction false} PositionPoolUniform(rs: seq<seq<Proposal>>, i: nat, f: VotedField, v: Value)
    requires forall r :: 0 <= r < |rs| && i < |rs[r]| ==> Get(rs[r][i], f) == v
    ensures forall k :: 0 <= k < |PositionPool(rs, i, f)| ==> PositionPool(rs, i, f)[k] == v
  {
    if |rs| > 0 {
      assert forall r :: 1 <= r < |rs| ==> rs[r] == rs[1..][r - 1];
      PositionPoolUniform(rs[1..], i, f, v);
    }
  }

  /** A per-position vote: each record of the first attempt
      takes, field by field, the plurality value among the records at the
      same position of all successful attempts. */
  function PositionalConsensus(attempts: seq<Attempt>): (out: seq<Proposal>)
    requires AttemptsValid(attempts)
    ensures |Successes(attempts)| == 0 ==> out == []
    ensures |Successes(attempts)| > 0 ==> |out| == |Successes(attempts)[0]|
    ensures forall i :: 0 <= i < |out| ==> SameStructure(out[i], Successes(attempts)[0][i])
    ensures forall i, f :: 0 <= i < |out| ==> IsPluralityWinner(PositionPool(Successes(attempts), i, f), Get(out[i], f))
    ensures AllValid(out)
  {
    var rs := Successes(attempts);
    if |rs| == 0 then []
    else
      var base := rs[0];
      seq(|base|, i requires 0 <= i < |base| => DecideAt(rs, i))
  }

  /** Record `i` of the first attempt decided by the ballots at position `i`. */
  function DecideAt(rs: seq<seq<Proposal>>, i: nat): (q: Proposal)
    requires |rs| > 0 && i < |rs[0]|
    requires forall r :: 0 <= r < |rs| ==> AllValid(rs[r])
    ensures SameStructure(q, rs[0][i]) && SchemaValid(q)
    ensures forall f :: IsPluralityWinner(PositionPool(rs, i, f), Get(q, f))
  {
    var pools := (f: VotedField) => PositionPool(rs, i, f);
    assert forall f :: pools(f) == PositionPool(rs, i, f);
    assert AllValid(rs[0]);
    Decide(rs[0][i], pools)
  }

  /** A value every attempt agrees on at a position survives the per-position vote. */
  lemma PositionalKeepsAgreement(attempts: seq<Attempt>, i: nat, f: VotedField)
    requires AttemptsValid(attempts)
    requires i < |PositionalConsensus(attempts)|
    requires forall r :: 0 <= r < |Successes(attempts)| && i < |Successes(attempts)[r]| ==>
      Get(Successes(attempts)[r][i], f) == Get(Successes(attempts)[0][i], f)
    ensures Get(PositionalConsensus(attempts)[i], f) == Get(Successes(attempts)[0][i], f)
  {
    var rs := Successes(attempts);
    var v := Get(rs[0][i], f);
    PositionPoolUniform(rs, i, f, v);
    var w := Get(PositionalConsensus(attempts)[i], f);
    var k :| 0 <= k < |PositionPool(rs, i, f)| && PositionPool(rs, i, f)[k] == w;
  }

  function SampleRecord(cost: int): Proposal {
    Proposal("內政部", "提案", Str("減列"), Arr([Str("委員")]), Null, Num(cost), Null, Null, Null, Null)
  }

  /** One attempt, two records with costs 200 and 100: the pooled vote is a
      tie that 100 wins, so the first record's cost becomes 100 although the
      only attempt said 200. */
  lemma PooledVoteOverridesAgreement()
    ensures AttemptsValid([Some([SampleRecord(200), SampleRecord(100)])])
    ensures Consensus([Some([SampleRecord(200), SampleRecord(100)])])[0].cost == Num(100)
  {
    var attempts := [Some([SampleRecord(200), SampleRecord(100)])];
    assert SchemaValid(SampleRecord(200)) && SchemaValid(SampleRecord(100));
    var rs := Successes(attempts);
    assert rs == [[SampleRecord(200), SampleRecord(100)]];
    SamplePool(rs);
    var pool := [Num(200), Num(100)];
    assert Count(pool, Num(200)) == 1 && Count(pool, Num(100)) == 1;
    assert IsPluralityWinner(pool, Num(100));
    PluralityWinnerUnique(pool, Get(Consensus(attempts)[0], Cost), Num(100));
  }

  lemma SamplePool(rs: seq<seq<Proposal>>)
    requires rs == [[SampleRecord(200), SampleRecord(100)]]
    ensures Pool(rs, Cost) == [Num(200), Num(100)]
  {
    assert rs[1..] == [] && Pool(rs[1..], Cost) == [];
    assert FieldValues(rs[0], Cost) == [Num(200), Num(100)];
  }

  /** On the same input the per-position vote keeps 200. */
  lemma PositionalKeepsSample()
    ensures AttemptsValid([Some([SampleRecord(200), SampleRecord(100)])])
    ensures PositionalConsensus([Some([SampleRecord(200), SampleRecord(100)])])[0].cost == Num(200)
  {
    var attempts := [Some([SampleRecord(200), SampleRecord(100)])];
    assert SchemaValid(SampleRecord(200)) && SchemaValid(SampleRecord(100));
    assert Successes(attempts) == [[SampleRecord(200), SampleRecord(100)]];
    PositionalKeepsAgreement(attempts, 0, Cost);
  }
}

/** The per-document loop of convert-md-to-json.js: each finished segment's
    records are tagged with the committee and appended to the in-memory list;
    every 20 finished segments, and once after the last one, the list is put
    in save order (in place) and written whole to the document's output file.
    The consensus results arrive in completion order, which is an input. */
module Accumulation {
  import opened Strings
  import opened Records
  import opened Ordering

  /** `objects.map((x) => ({ ...x, committee }))`. */
  function Tag(objects: seq<Proposal>, committee: string): (es: seq<Entry>)
    ensures |es| == |objects|
    ensures forall i :: 0 <= i < |es| ==> es[i] == Entry(objects[i], committee)
  {
    seq(|objects|, i requires 0 <= i < |objects| => Entry(objects[i], committee))
  }

  /** Every record of the first segments' results, tagged, in completion order. */
  function AllTagged(outputs: seq<seq<Proposal>>, committee: string): (es: seq<Entry>)
    ensures forall i :: 0 <= i < |es| ==> es[i].committee == committee
  {
    if |outputs| == 0 then []
    else AllTagged(outputs[..|outputs| - 1], committee) + Tag(outputs[|outputs| - 1], committee)
  }

  lemma AllTaggedStep(outputs: seq<seq<Proposal>>, n: nat, committee: string)
    requires n < |outputs|
    ensures AllTagged(outputs[..n + 1], committee) == AllTagged(outputs[..n], committee) + Tag(outputs[n], committee)
  {
    assert outputs[..n + 1][..n] == outputs[..n];
  }

  /** The records of the first `a` segments come first. */
  lemma {:induction false} AllTaggedSplit(outputs: seq<seq<Proposal>>, a: nat, committee: string)
    requires a <= |outputs|
    ensures AllTagged(outputs, committee) == AllTagged(outputs[..a], committee) + AllTagged(outputs[a..], committee)
  {
    if a < |outputs| {
      var m := |outputs| - 1;
      AllTaggedSplit(outputs[..m], a, committee);
      assert outputs[..m][..a] == outputs[..a];
      assert outputs[a..][..|outputs[a..]| - 1] == outputs[..m][a..];
      assert outputs[a..][|outputs[a..]| - 1] == outputs[m];
    } else {
      assert outputs[..a] == outputs;
      assert outputs[a..] == [];
    }
  }

  /** The state of the loop: the in-memory list, the number of finished
      segments, and the contents written so far, oldest first. */
  datatype Run = Run(list: seq<Entry>, completed: nat, writes: seq<seq<Entry>>)

  /** One finished segment: append its tagged records, and write a snapshot
      when the count of finished segments reaches a multiple of 20. */
  function Step(run: Run, objects: seq<Proposal>, committee: string, le: (string, string) -> bool): (next: Run)
    requires TotalPreorder(le)
    ensures next.completed == run.completed + 1
    ensures multiset(next.list) == multiset(run.list) + multiset(Tag(objects, committee))
    ensures next.completed % 20 == 0 ==>
      next.writes == run.writes + [next.list] && InSaveOrder(next.list, le)
    ensures next.completed % 20 != 0 ==>
      next.writes == run.writes && next.list == run.list + Tag(objects, committee)
  {
    var completed := run.completed + 1;
    var list := run.list + Tag(objects, committee);
    if completed % 20 == 0 then
      var saved := SaveOrder(list, le);
      Run(saved, completed, run.writes + [saved])
    else
      Run(list, completed, run.writes)
  }

  /** A multiset of committee-tagged records only holds such records. */
  lemma SameCommittee(s: seq<Entry>, t: seq<Entry>, committee: string)
    requires multiset(s) == multiset(t)
    requires forall i :: 0 <= i < |t| ==> t[i].committee == committee
    ensures forall i :: 0 <= i < |s| ==> s[i].committee == committee
  {
    forall i | 0 <= i < |s|
      ensures s[i].committee == committee
    {
      assert s[i] in multiset(t);
      var j :| 0 <= j < |t| && t[j] == s[i];
    }
  }

  lemma SnapshotCount(n: nat)
    ensures (n + 1) % 20 == 0 ==> (n + 1) / 20 == n / 20 + 1
    ensures (n + 1) % 20 != 0 ==> (n + 1) / 20 == n / 20
    ensures (n + 1) % 20 == 0 ==> n + 1 == 20 * (n / 20 + 1)
  {
  }

  /** What holds after `n` finished segments: the list holds exactly their
      records, one snapshot was written per 20 segments, and snapshot `k`
      is the save order of the first `20 * (k + 1)` segments' records. */
  ghost predicate Progress(run: Run, outputs: seq<seq<Proposal>>, n: nat, committee: string, le: (string, string) -> bool) {
    && n <= |outputs| && run.completed == n
    && multiset(run.list) == multiset(AllTagged(outputs[..n], committee))
    && |run.writes| == n / 20
    && (forall k :: 0 <= k < |run.writes| ==> InSaveOrder(run.writes[k], le))
    && (forall k :: 0 <= k < |run.writes| ==>
          20 * (k + 1) <= n &&
          multiset(run.writes[k]) == multiset(AllTagged(outputs[..20 * (k + 1)], committee)))
    && (forall k, i :: 0 <= k < |run.writes| && 0 <= i < |run.writes[k]| ==> run.writes[k][i].committee == committee)
  }

  /** The list after a step holds the records of one more segment. */
  lemma ListProgress(run: Run, next: Run, outputs: seq<seq<Proposal>>, n: nat, committee: string)
    requires n < |outputs|
    requires multiset(run.list) == multiset(AllTagged(outputs[..n], committee))
    requires multiset(next.list) == multiset(run.list) + multiset(Tag(outputs[n], committee))
    ensures multiset(next.list) == multiset(AllTagged(outputs[..n + 1], committee))
  {
    AllTaggedStep(outputs, n, committee);
  }

  lemma PlainProgress(run: Run, next: Run, outputs: seq<seq<Proposal>>, n: nat, committee: string, le: (string, string) -> bool)
    requires n < |outputs| && (n + 1) / 20 == n / 20
    requires Progress(run, outputs, n, committee, le)
    requires next.completed == n + 1 && next.writes == run.writes
    requires multiset(next.list) == multiset(AllTagged(outputs[..n + 1], committee))
    ensures Progress(next, outputs, n + 1, committee, le)
  {
  }

  lemma SnapshotProgress(run: Run, next: Run, outputs: seq<seq<Proposal>>, n: nat, committee: string, le: (string, string) -> bool)
    requires n < |outputs| && (n + 1) % 20 == 0 && n + 1 == 20 * (|run.writes| + 1)
    requires Progress(run, outputs, n, committee, le)
    requires next.completed == n + 1 && next.writes == run.writes + [next.list] && InSaveOrder(next.list, le)
    requires multiset(next.list) == multiset(AllTagged(outputs[..n + 1], committee))
    ensures Progress(next, outputs, n + 1, committee, le)
  {
    SameCommittee(next.list, AllTagged(outputs[..n + 1], committee), committee);
    var k := |run.writes|;
    forall l | 0 <= l < |next.writes|
      ensures InSaveOrder(next.writes[l], le)
      ensures 20 * (l + 1) <= n + 1
      ensures multiset(next.writes[l]) == multiset(AllTagged(outputs[..20 * (l + 1)], committee))
      ensures forall i :: 0 <= i < |next.writes[l]| ==> next.writes[l][i].committee == committee
    {
      if l < k {
        assert next.writes[l] == run.writes[l];
      } else {
        assert next.writes[l] == next.list;
      }
    }
  }

  /** The loop over one document's segments and the final save. `outputs`
      holds each segment's consensus records in completion order. */
  method ConvertDocument(outputs: seq<seq<Proposal>>, committee: string, le: (string, string) -> bool)
    returns (writes: seq<seq<Entry>>)
    requires TotalPreorder(le)
    ensures |writes| == |outputs| / 20 + 1
    ensures forall k :: 0 <= k < |writes| ==> InSaveOrder(writes[k], le)
    ensures forall k :: 0 <= k < |writes| - 1 ==>
      multiset(writes[k]) == multiset(AllTagged(outputs[..20 * (k + 1)], committee))
    ensures multiset(writes[|writes| - 1]) == multiset(AllTagged(outputs, committee))
    ensures forall k, i :: 0 <= k < |writes| && 0 <= i < |writes[k]| ==> writes[k][i].committee == committee
    ensures forall k :: 0 <= k < |writes| ==> multiset(writes[k]) <= multiset(writes[|writes| - 1])
  {
    var run := Run([], 0, []);
    var n := 0;
    while n < |outputs|
      invariant n <= |outputs|
      invariant Progress(run, outputs, n, committee, le)
    {
      var next := Step(run, outputs[n], committee, le);
      ListProgress(run, next, outputs, n, committee);
      SnapshotCount(n);
      if (n + 1) % 20 == 0 {
        SnapshotProgress(run, next, outputs, n, committee, le);
      } else {
        PlainProgress(run, next, outputs, n, committee, le);
      }
      run := next;
      n := n + 1;
    }
    assert outputs[..n] == outputs;
    var saved := SaveOrder(run.list, le);
    writes := run.writes + [saved];
    FinalWrite(run, saved, outputs, committee, le);
  }

  /** The final save after the loop: the writes so far plus the whole list in save order. */
  lemma FinalWrite(run: Run, saved: seq<Entry>, outputs: seq<seq<Proposal>>, committee: string, le: (string, string) -> bool)
    requires Progress(run, outputs, |outputs|, committee, le)
    requires outputs[..|outputs|] == outputs
    requires multiset(saved) == multiset(run.list) && InSaveOrder(saved, le)
    ensures var writes := run.writes + [saved];
      && |writes| == |outputs| / 20 + 1
      && (forall k :: 0 <= k < |writes| ==> InSaveOrder(writes[k], le))
      && (forall k :: 0 <= k < |writes| - 1 ==>
            multiset(writes[k]) == multiset(AllTagged(outputs[..20 * (k + 1)], committee)))
      && multiset(writes[|writes| - 1]) == multiset(AllTagged(outputs, committee))
      && (forall k, i :: 0 <= k < |writes| && 0 <= i < |writes[k]| ==> writes[k][i].committee == committee)
      && (forall k :: 0 <= k < |writes| ==> multiset(writes[k]) <= multiset(writes[|writes| - 1]))
  {
    var writes := run.writes + [saved];
    SameCommittee(saved, AllTagged(outputs, committee), committee);
    assert writes[|writes| - 1] == saved;
    forall k | 0 <= k < |writes| - 1
      ensures writes[k] == run.writes[k]
      ensures multiset(writes[k]) <= multiset(saved)
    {
      AllTaggedSplit(outputs, 20 * (k + 1), committee);
    }
  }

  /** `file.split(".").slice(0, -1).join(".") + ".json"`: the last dot and
      what follows it give way to `.json`. */
  function OutputName(file: string): (name: string)
    ensures |name| >= 5 && name[|name| - 5..] == ".json"
  {
    var parts := Split(file, '.');
    Join(parts[..|parts| - 1], ".") + ".json"
  }

  /** A name with an extension keeps its stem and gets `.json`. */
  lemma OutputNameReplacesExtension(stem: string, ext: string)
    requires '.' !in ext
    ensures OutputName(stem + "." + ext) == stem + ".json"
  {
    SplitLast(stem, '.', ext);
    var parts := Split(stem + "." + ext, '.');
    assert parts[..|parts| - 1] == Split(stem, '.');
    JoinSplit(stem, '.');
  }

  /** A name without a dot becomes just `.json`. */
  lemma OutputNameWithoutDot(file: string)
    requires '.' !in file
    ensures OutputName(file) == ".json"
  {
    SplitNoSep(file, '.');
  }
}

/** Row shaping in supabase-sync.js: each record read back from a result file
    has its name lists flattened to text, gets an embedding text, and is sent
    with the embedding (or null when the embedding call fails). The
    embedding service is a parameter `embed`; its vectors are of an
    unspecified type `V`. */
module Sync {
  import opened Strings
  import opened Records

  /** The separator the name lists are joined with (U+3001). */
  const ListSeparator: char := '、'

  /** `Array.isArray(v) ? v.join("、") : v`. */
  function FlattenNames(v: Value): (r: Value)
    ensures v.Arr? ==> r.Str?
    ensures !v.Arr? ==> r == v
  {
    if v.Arr? then Str(ArrayJoin(v.items, [ListSeparator])) else v
  }

  /** Any list of names, separators and empty names included, becomes the
      names joined in order with the separator. */
  lemma FlattenNamesJoins(names: seq<string>)
    ensures var items := seq(|names|, k requires 0 <= k < |names| => Str(names[k]));
      FlattenNames(Arr(items)) == Str(Join(names, [ListSeparator]))
  {
    var items := seq(|names|, k requires 0 <= k < |names| => Str(names[k]));
    ArrayJoinOfStrings(items, [ListSeparator]);
    assert StringsOf(items) == names;
  }

  /** A list of names becomes the names joined in order, and splitting at
      the separator gives them back when there is at least one and none
      contains the separator. */
  lemma FlattenNamesRoundTrip(names: seq<string>)
    requires |names| >= 1
    requires forall k :: 0 <= k < |names| ==> ListSeparator !in names[k]
    ensures var items := seq(|names|, k requires 0 <= k < |names| => Str(names[k]));
      FlattenNames(Arr(items)) == Str(Join(names, [ListSeparator]))
      && Split(FlattenNames(Arr(items)).s, ListSeparator) == names
  {
    FlattenNamesJoins(names);
    SplitJoin(names, ListSeparator);
  }

  /** An empty list flattens to the empty string, which is falsy. */
  lemma EmptyListFlattensFalsy()
    ensures FlattenNames(Arr([])) == Str("") && !Truthy(FlattenNames(Arr([])))
  {
  }

  /** `{ ...item, proposer: …, co_signers: … }`: only the two name lists change. */
  function Flatten(item: Entry): (out: Entry)
    ensures out.committee == item.committee
    ensures out.proposal == item.proposal.(proposer := out.proposal.proposer, coSigners := out.proposal.coSigners)
    ensures out.proposal.proposer == FlattenNames(item.proposal.proposer)
    ensures out.proposal.coSigners == FlattenNames(item.proposal.coSigners)
  {
    var p := item.proposal;
    Entry(p.(proposer := FlattenNames(p.proposer), coSigners := FlattenNames(p.coSigners)), item.committee)
  }

  const ProposerPrefix: string := "提案人："
  const CoSignerPrefix: string := "連署人："

  /** `.filter(Boolean)` on strings: the non-empty ones, in order. */
  function NonEmpty(ss: seq<string>): (r: seq<string>)
    ensures |r| <= |ss|
    ensures forall k :: 0 <= k < |r| ==> r[k] != "" && r[k] in ss
    ensures forall s :: s in ss && s != "" ==> s in r
  {
    if |ss| == 0 then []
    else
      assert forall k :: 1 <= k < |ss| ==> ss[k] == ss[1..][k - 1];
      if ss[0] == "" then NonEmpty(ss[1..]) else [ss[0]] + NonEmpty(ss[1..])
  }

  /** The filter keeps order and multiplicity: it works element by element. */
  lemma {:induction false} NonEmptyAppend(a: seq<string>, b: seq<string>)
    ensures NonEmpty(a + b) == NonEmpty(a) + NonEmpty(b)
    decreases |a|
  {
    if |a| == 0 {
      assert a + b == b;
    } else {
      assert (a + b)[0] == a[0];
      assert (a + b)[1..] == a[1..] + b;
      NonEmptyAppend(a[1..], b);
    }
  }

  /** A single string is kept exactly when it is not empty. */
  lemma NonEmptyOne(s: string)
    ensures NonEmpty([s]) == if s == "" then [] else [s]
  {
    assert [s][1..] == [];
  }

  /** The three candidate lines: content, proposer line, co-signer line. */
  function Candidates(item: Entry): (ss: seq<string>)
    ensures |ss| == 3
  {
    var p := item.proposal;
    [p.content, ProposerPrefix + Display(p.proposer),
     if Truthy(p.coSigners) then CoSignerPrefix + Display(p.coSigners) else ""]
  }

  /** The text handed to the embedding service. */
  function EmbeddingText(item: Entry): (text: string)
    ensures StartsWith(text, item.proposal.content)
  {
    var lines := NonEmpty(Candidates(item));
    EmbeddingTextPrefix(item);
    Join(lines, "\n")
  }

  lemma EmbeddingTextPrefix(item: Entry)
    ensures StartsWith(Join(NonEmpty(Candidates(item)), "\n"), item.proposal.content)
  {
    EmbeddingTextShape(item);
  }

  /** The text in closed form: the content and a line break unless the
      content is empty, then the proposer line, then the co-signer line
      exactly when the co-signers are truthy. */
  lemma EmbeddingTextShape(item: Entry)
    ensures Join(NonEmpty(Candidates(item)), "\n") ==
      (if item.proposal.content == "" then "" else item.proposal.content + "\n")
      + (ProposerPrefix + Display(item.proposal.proposer))
      + (if Truthy(item.proposal.coSigners) then "\n" + (CoSignerPrefix + Display(item.proposal.coSigners)) else "")
  {
    var p := item.proposal;
    var proposerLine, coLine := ProposerPrefix + Display(p.proposer), CoSignerPrefix + Display(p.coSigners);
    assert Candidates(item) == [p.content, proposerLine, if Truthy(p.coSigners) then coLine else ""];
    JoinLines(p.content, proposerLine, coLine, Truthy(p.coSigners));
  }

  /** The join of the non-empty candidate lines, for any line texts. */
  lemma JoinLines(content: string, proposerLine: string, coLine: string, hasCo: bool)
    requires proposerLine != "" && coLine != ""
    ensures Join(NonEmpty([content, proposerLine, if hasCo then coLine else ""]), "\n") ==
      (if content == "" then "" else content + "\n") + proposerLine + (if hasCo then "\n" + coLine else "")
  {
    var rest := CandidateLines(content, proposerLine, coLine, hasCo);
    JoinRest(proposerLine, coLine, hasCo);
    JoinContent(content, rest, proposerLine + (if hasCo then "\n" + coLine else ""));
  }

  /** Which candidate lines survive the filter: the content when it is not
      empty, the proposer line always, the co-signer line when present. */
  lemma CandidateLines(content: string, proposerLine: string, coLine: string, hasCo: bool)
    returns (rest: seq<string>)
    requires proposerLine != "" && coLine != ""
    ensures rest == [proposerLine] + (if hasCo then [coLine] else [])
    ensures NonEmpty([content, proposerLine, if hasCo then coLine else ""]) ==
      (if content == "" then [] else [content]) + rest
  {
    var last := if hasCo then coLine else "";
    rest := [proposerLine] + (if hasCo then [coLine] else []);
    assert [content, proposerLine, last] == [content] + ([proposerLine] + [last]);
    NonEmptyCons(last, []);
    assert NonEmpty([last]) == (if hasCo then [coLine] else []);
    NonEmptyCons(proposerLine, [last]);
    assert NonEmpty([proposerLine] + [last]) == rest;
    NonEmptyCons(content, [proposerLine] + [last]);
  }

  lemma JoinRest(proposerLine: string, coLine: string, hasCo: bool)
    ensures Join([proposerLine] + (if hasCo then [coLine] else []), "\n") ==
      proposerLine + (if hasCo then "\n" + coLine else "")
  {
    if hasCo {
      JoinCons(proposerLine, [coLine], "\n");
    } else {
      assert [proposerLine] + [] == [proposerLine];
    }
  }

  lemma JoinContent(content: string, rest: seq<string>, joined: string)
    requires |rest| >= 1 && Join(rest, "\n") == joined
    ensures Join((if content == "" then [] else [content]) + rest, "\n") ==
      (if content == "" then "" else content + "\n") + joined
  {
    if content != "" {
      JoinCons(content, rest, "\n");
    } else {
      assert [] + rest == rest;
    }
  }

  lemma NonEmptyCons(s: string, rest: seq<string>)
    ensures NonEmpty([s] + rest) == (if s == "" then [] else [s]) + NonEmpty(rest)
  {
    assert ([s] + rest)[1..] == rest;
  }

  /** A record ready to be inserted: the flattened item and its embedding,
      `None` standing for the `null` a failed call leaves. */
  datatype Row<V> = Row(item: Entry, vector: Option<V>)

  /** `generateProposalEmbedding(processedItem)` for one item. */
  function ShapeRow<V>(item: Entry, embed: string -> Option<V>): (row: Row<V>)
    ensures row.item == Flatten(item)
    ensures row.vector == embed(EmbeddingText(Flatten(item)))
  {
    var flat := Flatten(item);
    Row(flat, embed(EmbeddingText(flat)))
  }

  /** One file's rows: every item kept, in order, whether or not its
      embedding succeeded. */
  function ShapeRows<V>(items: seq<Entry>, embed: string -> Option<V>): (rows: seq<Row<V>>)
    ensures |rows| == |items|
    ensures forall i :: 0 <= i < |rows| ==> rows[i].item == Flatten(items[i])
    ensures forall i :: 0 <= i < |rows| ==> rows[i].vector == embed(EmbeddingText(rows[i].item))
  {
    seq(|items|, i requires 0 <= i < |items| => ShapeRow(items[i], embed))
  }

  /** A null proposer still yields the proposer line, as `提案人：null`. */
  lemma NullProposerLine(content: string, committee: string)
    ensures var p := Proposal("", content, Null, Null, Null, Null, Null, Null, Null, Null);
      EmbeddingText(Flatten(Entry(p, committee))) ==
        (if content == "" then "" else content + "\n") + "提案人：null"
  {
    var p := Proposal("", content, Null, Null, Null, Null, Null, Null, Null, Null);
    EmbeddingTextShape(Flatten(Entry(p, committee)));
  }
}

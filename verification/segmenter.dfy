/** The proposal segmenter: `parseProposals` in convert-md-to-json.js.
    A document is cut at every newline that is followed by a section marker,
    only the pieces that open with a parenthesised Chinese ordinal are kept,
    and each kept piece is flattened onto one line with paragraph breaks put
    back before the proposer label, the co-signer label and numbered items. */
module Segmenter {
  import opened Strings

  /** Numerals a section marker `(…)` may use when the document is cut: the
      Chinese numerals and the zero sign ○. */
  const SectionNumerals: string := "一二三四五六七八九十百○"
  /** Numerals a kept piece's opening `(…)` may use: the zero sign is not among them. */
  const OrdinalNumerals: string := "一二三四五六七八九十百"

  const ProposerLabel: string := "提案人："
  const CoSignerLabel: string := "連署人："
  const IdeographicSpace: char := '\U{3000}'

  /** `s` starts with `(`, one or more of `numerals`, then `)`. A greedy run
      of numerals followed by `)` is the only way the pattern can match, as
      `)` is not a numeral. */
  predicate OpensWithParen(s: string, numerals: string) {
    && |s| > 0 && s[0] == '('
    && var j := RunEnd(s, 1, numerals);
    1 < j < |s| && s[j] == ')'
  }

  /** `s` starts with `第`, one or more ASCII digits, then `unit`. */
  predicate OpensWithCounted(s: string, unit: char) {
    && |s| > 0 && s[0] == '第'
    && var j := RunEnd(s, 1, AsciiDigits);
    1 < j < |s| && s[j] == unit
  }

  /** The lookahead of the cutting pattern: `(…)` with ○ allowed, `第N項` or `第N款`. */
  predicate OpensSection(s: string) {
    OpensWithParen(s, SectionNumerals) || OpensWithCounted(s, '項') || OpensWithCounted(s, '款')
  }

  /** The test a piece must pass to be kept: it starts with `(…)` without ○. */
  predicate OpensProposal(s: string) {
    OpensWithParen(s, OrdinalNumerals)
  }

  /** Position `k` of `s` is a cut point: a newline followed by a section marker. */
  predicate IsCut(s: string, k: nat)
    requires k < |s|
  {
    s[k] == '\n' && OpensSection(s[k + 1..])
  }

  /** Markers hold no newline, so a marker is still a marker with anything appended. */
  lemma MarkerExtends(u: string, w: string)
    requires OpensSection(u)
    ensures OpensSection(u + w)
  {
    var s := u + w;
    if OpensWithParen(u, SectionNumerals) {
      var j := RunEnd(u, 1, SectionNumerals);
      assert s[..j + 1] == u[..j + 1];
      RunEndOfPrefix(u, s, 1, SectionNumerals);
    } else {
      var j := RunEnd(u, 1, AsciiDigits);
      assert s[..j + 1] == u[..j + 1];
      RunEndOfPrefix(u, s, 1, AsciiDigits);
    }
  }

  /** A marker ends before the first newline, so cutting at a newline keeps it. */
  lemma MarkerSurvivesCut(u: string, w: string)
    requires OpensSection(u + "\n" + w)
    ensures OpensSection(u)
  {
    var s := u + "\n" + w;
    if OpensWithParen(s, SectionNumerals) {
      var j := RunEnd(s, 1, SectionNumerals);
      assert s[|u|] == '\n';
      assert j < |u|;
      assert u[..j + 1] == s[..j + 1];
      RunEndOfPrefix(s, u, 1, SectionNumerals);
    } else {
      var j := RunEnd(s, 1, AsciiDigits);
      assert s[|u|] == '\n';
      assert j < |u|;
      assert u[..j + 1] == s[..j + 1];
      RunEndOfPrefix(s, u, 1, AsciiDigits);
    }
  }

  /** The first cut point at or after `i`, or `|s|` when there is none. */
  function NextCut(s: string, i: nat): (p: nat)
    requires i <= |s|
    ensures i <= p <= |s|
    ensures p < |s| ==> IsCut(s, p)
    ensures forall k :: i <= k < p ==> !IsCut(s, k)
    decreases |s| - i
  {
    if i == |s| then i else if IsCut(s, i) then i else NextCut(s, i + 1)
  }

  /** `text.split(/\n(?=marker)/)`: the pieces between cut points, the cut
      newlines themselves removed. */
  function Sections(s: string): (pieces: seq<string>)
    ensures |pieces| >= 1
    ensures forall k :: 1 <= k < |pieces| ==> OpensSection(pieces[k])
    decreases |s|
  {
    var p := NextCut(s, 0);
    if p == |s| then [s]
    else
      var rest := Sections(s[p + 1..]);
      SectionsHead(s[p + 1..], rest);
      [s[..p]] + rest
  }

  /** The first piece of a text that opens with a marker opens with it too. */
  lemma SectionsHead(t: string, pieces: seq<string>)
    requires OpensSection(t) && |pieces| >= 1
    requires pieces[0] == t[..NextCut(t, 0)]
    ensures OpensSection(pieces[0])
  {
    var q := NextCut(t, 0);
    if q < |t| {
      assert t == t[..q] + "\n" + t[q + 1..];
      MarkerSurvivesCut(t[..q], t[q + 1..]);
    } else {
      assert t[..q] == t;
    }
  }

  /** One step of the cut: the text up to the first cut point, then the rest. */
  lemma SectionsStep(s: string)
    requires NextCut(s, 0) < |s|
    ensures Sections(s) == [s[..NextCut(s, 0)]] + Sections(s[NextCut(s, 0) + 1..])
  {
  }

  lemma CutApart(s: string, p: nat)
    requires p < |s| && s[p] == '\n'
    ensures s == s[..p] + "\n" + s[p + 1..]
  {
  }

  /** Joining the pieces with the newlines the cut removed gives the document back. */
  lemma {:induction false} SectionsJoin(s: string)
    ensures Join(Sections(s), "\n") == s
    decreases |s|
  {
    var p := NextCut(s, 0);
    if p < |s| {
      SectionsJoin(s[p + 1..]);
      SectionsStep(s);
      JoinCons(s[..p], Sections(s[p + 1..]), "\n");
      CutApart(s, p);
    }
  }

  /** No piece holds a cut point of its own: every newline inside a piece is
      followed, within the piece, by something other than a section marker. */
  lemma {:induction false} SectionsAreMaximal(s: string)
    ensures forall k, i :: 0 <= k < |Sections(s)| && 0 <= i < |Sections(s)[k]| ==> !IsCut(Sections(s)[k], i)
    decreases |s|
  {
    var p := NextCut(s, 0);
    var pieces := Sections(s);
    var head := s[..p];
    forall i | 0 <= i < |head|
      ensures !IsCut(head, i)
    {
      if IsCut(head, i) {
        MarkerExtends(head[i + 1..], s[p..]);
        assert head[i + 1..] + s[p..] == s[i + 1..];
        assert IsCut(s, i);
        assert false;
      }
    }
    if p < |s| {
      SectionsAreMaximal(s[p + 1..]);
      assert pieces == [head] + Sections(s[p + 1..]);
    }
  }

  /** `replaceAll("\n", "　")`: every newline becomes an ideographic space. */
  function FlattenLines(s: string): (r: string)
    ensures |r| == |s| && '\n' !in r
    ensures forall k :: 0 <= k < |s| && s[k] != '\n' ==> r[k] == s[k]
    ensures forall k :: 0 <= k < |s| && s[k] == '\n' ==> r[k] == IdeographicSpace
  {
    seq(|s|, k requires 0 <= k < |s| => if s[k] == '\n' then IdeographicSpace else s[k])
  }

  /** `replaceAll(word, "\n\n" + word)`: occurrences are found left to right
      and do not overlap. */
  function BreakBefore(s: string, word: string): (r: string)
    requires |word| > 0
    decreases |s|
  {
    if |s| == 0 then ""
    else if StartsWith(s, word) then "\n\n" + word + BreakBefore(s[|word|..], word)
    else [s[0]] + BreakBefore(s[1..], word)
  }

  /** `s` starts with a numbered item: ASCII digits followed by `.`. */
  predicate ItemAt(s: string) {
    && |s| > 0 && IsAsciiDigit(s[0])
    && var j := RunEnd(s, 0, AsciiDigits);
    j < |s| && s[j] == '.'
  }

  /** `replace(/(\d+)\./g, "\n\n$1.")`: the scan tries each position in turn;
      where a greedy digit run followed by `.` starts, the run and the dot are
      moved on whole. */
  function BreakBeforeItems(s: string): (r: string)
    decreases |s|
  {
    if |s| == 0 then ""
    else if ItemAt(s) then
      var j := RunEnd(s, 0, AsciiDigits);
      "\n\n" + s[..j + 1] + BreakBeforeItems(s[j + 1..])
    else [s[0]] + BreakBeforeItems(s[1..])
  }

  /** The per-piece normalisation of `parseProposals`, step by step as the
      source chains it. */
  function Normalize(piece: string): string {
    Normalize'(Trim(piece))
  }

  /** The stages after trimming. */
  function Normalize'(t: string): string {
    BreakBeforeItems(BreakBefore(BreakBefore(FlattenLines(t), ProposerLabel), CoSignerLabel))
  }

  /** The three places a paragraph break is put back. */
  datatype BreakKind = BeforeProposer | BeforeCoSigners | BeforeItem

  /** `t` starts with what a break of one of `kinds` is put in front of. */
  predicate BreakTarget(t: string, kinds: set<BreakKind>) {
    || (BeforeProposer in kinds && StartsWith(t, ProposerLabel))
    || (BeforeCoSigners in kinds && StartsWith(t, CoSignerLabel))
    || (BeforeItem in kinds && ItemAt(t))
  }

  /** Reading `s` left to right, every newline opens a `\n\n` pair that is
      immediately followed by a target of one of `kinds`. With no kinds at
      all, `s` holds no newline. */
  predicate BreaksOnlyBefore(s: string, kinds: set<BreakKind>)
    decreases |s|
  {
    if |s| == 0 then true
    else if s[0] == '\n' then |s| >= 2 && s[1] == '\n' && BreakTarget(s[2..], kinds) && BreaksOnlyBefore(s[2..], kinds)
    else BreaksOnlyBefore(s[1..], kinds)
  }

  /** A newline-free prefix does not change whether breaks are well placed. */
  lemma {:induction false} BreaksSkipPlain(p: string, t: string, kinds: set<BreakKind>)
    requires '\n' !in p
    ensures BreaksOnlyBefore(p + t, kinds) <==> BreaksOnlyBefore(t, kinds)
    decreases |p|
  {
    if |p| > 0 {
      assert (p + t)[0] == p[0];
      assert (p + t)[1..] == p[1..] + t;
      BreaksSkipPlain(p[1..], t, kinds);
    } else {
      assert p + t == t;
    }
  }

  /** Text without any newline has its breaks well placed, trivially. */
  lemma NoNewlineNoBreaks(s: string, kinds: set<BreakKind>)
    requires '\n' !in s
    ensures BreaksOnlyBefore(s, kinds)
  {
    BreaksSkipPlain(s, "", kinds);
    assert s + "" == s;
  }

  function LabelOf(kind: BreakKind): (w: string)
    requires kind != BeforeItem
    ensures |w| == 4 && w[0] != '\n' && '\n' !in w
  {
    if kind == BeforeProposer then ProposerLabel else CoSignerLabel
  }

  /** Label insertion leaves a prefix alone when no character of it could start the label. */
  lemma {:induction false} BreakBeforeKeepsPrefix(s: string, word: string, k: nat)
    requires |word| > 0 && k <= |s|
    requires forall i :: 0 <= i < k ==> s[i] != word[0]
    ensures StartsWith(BreakBefore(s, word), s[..k])
    decreases k
  {
    if k > 0 {
      StartsWithHead(s, word);
      BreakBeforeKeepsPrefix(s[1..], word, k - 1);
      assert s[..k] == [s[0]] + s[1..][..k - 1];
    }
  }

  /** Item insertion leaves a digit-free prefix alone. */
  lemma {:induction false} BreakBeforeItemsKeepsPrefix(s: string, k: nat)
    requires k <= |s|
    requires forall i :: 0 <= i < k ==> !IsAsciiDigit(s[i])
    ensures StartsWith(BreakBeforeItems(s), s[..k])
    decreases k
  {
    if k > 0 {
      assert !ItemAt(s);
      BreakBeforeItemsKeepsPrefix(s[1..], k - 1);
      assert s[..k] == [s[0]] + s[1..][..k - 1];
    }
  }

  /** Two newlines in front of the rest of a label insertion. */
  lemma BreakBeforeOverPair(s: string, word: string)
    requires |word| > 0 && word[0] != '\n'
    requires |s| >= 2 && s[0] == '\n' && s[1] == '\n'
    ensures BreakBefore(s, word) == "\n\n" + BreakBefore(s[2..], word)
  {
    StartsWithHead(s, word);
    StartsWithHead(s[1..], word);
    assert s[1..][1..] == s[2..];
  }

  /** Inserting breaks before one label keeps the breaks already placed
      before the other label, and places its own correctly. */
  lemma {:induction false} BreakBeforePlacesBreaks(s: string, kind: BreakKind, kinds: set<BreakKind>)
    requires kind != BeforeItem && kind !in kinds && BeforeItem !in kinds
    requires BreaksOnlyBefore(s, kinds)
    ensures BreaksOnlyBefore(BreakBefore(s, LabelOf(kind)), kinds + {kind})
    decreases |s|
  {
    var w := LabelOf(kind);
    if |s| == 0 {
    } else if StartsWith(s, w) {
      assert s == w + s[|w|..];
      BreaksSkipPlain(w, s[|w|..], kinds);
      BreakBeforePlacesBreaks(s[|w|..], kind, kinds);
      BreaksAtLabel(s, kind, kinds);
    } else if s[0] == '\n' {
      BreakBeforePlacesBreaks(s[2..], kind, kinds);
      BreaksAtPair(s, kind, kinds);
    } else {
      BreakBeforePlacesBreaks(s[1..], kind, kinds);
    }
  }

  /** The step of BreakBeforePlacesBreaks where `s` starts with the label. */
  lemma BreaksAtLabel(s: string, kind: BreakKind, kinds: set<BreakKind>)
    requires kind != BeforeItem && kind !in kinds && BeforeItem !in kinds
    requires |s| > 0 && StartsWith(s, LabelOf(kind)) && BreaksOnlyBefore(s, kinds)
    requires BreaksOnlyBefore(BreakBefore(s[|LabelOf(kind)|..], LabelOf(kind)), kinds + {kind})
    ensures BreaksOnlyBefore(BreakBefore(s, LabelOf(kind)), kinds + {kind})
  {
    var w := LabelOf(kind);
    var ks := kinds + {kind};
    var tail := s[|w|..];
    var rest := BreakBefore(tail, w);
    BreaksSkipPlain(w, rest, ks);
    var out := BreakBefore(s, w);
    assert out == "\n\n" + w + rest;
    assert out[2..] == w + rest;
    assert StartsWith(out[2..], w);
  }

  /** The step of BreakBeforePlacesBreaks where `s` starts with a `\n\n` pair. */
  lemma BreaksAtPair(s: string, kind: BreakKind, kinds: set<BreakKind>)
    requires kind != BeforeItem && kind !in kinds && BeforeItem !in kinds
    requires |s| > 0 && s[0] == '\n' && !StartsWith(s, LabelOf(kind)) && BreaksOnlyBefore(s, kinds)
    requires BreaksOnlyBefore(BreakBefore(s[2..], LabelOf(kind)), kinds + {kind})
    ensures BreaksOnlyBefore(BreakBefore(s, LabelOf(kind)), kinds + {kind})
  {
    var w := LabelOf(kind);
    var t := s[2..];
    BreakBeforeOverPair(s, w);
    var other := if kind == BeforeProposer then BeforeCoSigners else BeforeProposer;
    assert BreakTarget(t, kinds);
    var m := LabelOf(other);
    assert other in kinds && t[..4] == m;
    BreakBeforeKeepsPrefix(t, w, 4);
    var out := BreakBefore(s, w);
    assert out[2..] == BreakBefore(t, w);
    assert StartsWith(out[2..], m);
  }

  lemma ItemIsPlain(s: string)
    requires ItemAt(s)
    ensures '\n' !in s[..RunEnd(s, 0, AsciiDigits) + 1]
  {
    var item := s[..RunEnd(s, 0, AsciiDigits) + 1];
    assert forall k :: 0 <= k < |item| ==> item[k] == '.' || IsAsciiDigit(item[k]);
  }

  /** The item case of the placement proof, given the result for the rest. */
  lemma ItemBreakPlaced(s: string)
    requires ItemAt(s)
    requires BreaksOnlyBefore(BreakBeforeItems(s[RunEnd(s, 0, AsciiDigits) + 1..]), {BeforeProposer, BeforeCoSigners, BeforeItem})
    ensures BreaksOnlyBefore(BreakBeforeItems(s), {BeforeProposer, BeforeCoSigners, BeforeItem})
  {
    var all := {BeforeProposer, BeforeCoSigners, BeforeItem};
    var item, t := ItemSplit(s);
    var rest := BreakBeforeItems(t);
    ItemIsPlain(s);
    BreaksSkipPlain(item, rest, all);
    ItemKeptBy(s, rest);
    PairBreak(item + rest, all);
  }

  /** An item stays an item whatever follows its dot. */
  lemma ItemKeptBy(s: string, u: string)
    requires ItemAt(s)
    ensures ItemAt(s[..RunEnd(s, 0, AsciiDigits) + 1] + u)
  {
    var j := RunEnd(s, 0, AsciiDigits);
    var item := s[..j + 1];
    assert (item + u)[..j + 1] == s[..j + 1];
    RunEndOfPrefix(s, item + u, 0, AsciiDigits);
  }

  lemma ItemsOverPair(s: string)
    requires |s| >= 2 && s[0] == '\n' && s[1] == '\n'
    ensures BreakBeforeItems(s) == "\n\n" + BreakBeforeItems(s[2..])
  {
    var rest := BreakBeforeItems(s[2..]);
    assert !IsAsciiDigit('\n');
    assert s[1..][0] == '\n';
    PlainItemStep(s);
    PlainItemStep(s[1..]);
    assert s[1..][1..] == s[2..];
    assert BreakBeforeItems(s) == [s[0]] + ([s[1]] + rest);
    assert [s[0]] + ([s[1]] + rest) == "\n\n" + rest;
  }

  /** Item insertion keeps a label at the front. */
  lemma ItemsKeepLabel(t: string)
    requires StartsWith(t, ProposerLabel) || StartsWith(t, CoSignerLabel)
    ensures BreakTarget(BreakBeforeItems(t), {BeforeProposer, BeforeCoSigners})
  {
    var m := if StartsWith(t, ProposerLabel) then ProposerLabel else CoSignerLabel;
    assert t[..4] == m;
    BreakBeforeItemsKeepsPrefix(t, 4);
  }

  /** A pair followed by a target is a well-placed break. */
  lemma PairBreak(x: string, kinds: set<BreakKind>)
    requires BreakTarget(x, kinds) && BreaksOnlyBefore(x, kinds)
    ensures BreaksOnlyBefore("\n\n" + x, kinds)
  {
    assert ("\n\n" + x)[2..] == x;
  }

  /** The case of a break pair already in place before a label, given the
      result for what follows the pair. */
  lemma LabelBreakKept(s: string)
    requires |s| >= 2 && s[0] == '\n' && s[1] == '\n'
    requires StartsWith(s[2..], ProposerLabel) || StartsWith(s[2..], CoSignerLabel)
    requires BreaksOnlyBefore(BreakBeforeItems(s[2..]), {BeforeProposer, BeforeCoSigners, BeforeItem})
    ensures BreaksOnlyBefore(BreakBeforeItems(s), {BeforeProposer, BeforeCoSigners, BeforeItem})
  {
    ItemsOverPair(s);
    ItemsKeepLabel(s[2..]);
    PairBreak(BreakBeforeItems(s[2..]), {BeforeProposer, BeforeCoSigners, BeforeItem});
  }

  /** Inserting breaks before numbered items keeps the label breaks already
      placed and places its own correctly. */
  lemma {:induction false} BreakBeforeItemsPlacesBreaks(s: string)
    requires BreaksOnlyBefore(s, {BeforeProposer, BeforeCoSigners})
    ensures BreaksOnlyBefore(BreakBeforeItems(s), {BeforeProposer, BeforeCoSigners, BeforeItem})
    decreases |s|
  {
    var labels := {BeforeProposer, BeforeCoSigners};
    if |s| == 0 {
    } else if ItemAt(s) {
      var j := RunEnd(s, 0, AsciiDigits);
      ItemIsPlain(s);
      assert s == s[..j + 1] + s[j + 1..];
      BreaksSkipPlain(s[..j + 1], s[j + 1..], labels);
      BreakBeforeItemsPlacesBreaks(s[j + 1..]);
      ItemBreakPlaced(s);
    } else if s[0] == '\n' {
      BreakBeforeItemsPlacesBreaks(s[2..]);
      LabelBreakKept(s);
    } else {
      BreakBeforeItemsPlacesBreaks(s[1..]);
    }
  }

  /** `t` starts with a `\n\n` pair followed by a digit. */
  predicate ItemPairAt(t: string) {
    |t| >= 3 && t[0] == '\n' && t[1] == '\n' && IsAsciiDigit(t[2])
  }

  /** No break splits a digit run: no digit of `s` is followed by a `\n\n`
      pair and another digit. With BreaksOnlyBefore, every item break stands
      where the digit run of its item starts. */
  predicate RunsUnsplit(s: string)
    decreases |s|
  {
    |s| == 0 || (!(IsAsciiDigit(s[0]) && ItemPairAt(s[1..])) && RunsUnsplit(s[1..]))
  }

  /** A newline-free prefix that does not end in a digit right before an
      item pair does not change whether runs are unsplit. */
  lemma {:induction false} RunsSkipPlain(p: string, t: string)
    requires '\n' !in p
    requires |p| > 0 ==> !IsAsciiDigit(p[|p| - 1]) || !ItemPairAt(t)
    ensures RunsUnsplit(p + t) <==> RunsUnsplit(t)
    decreases |p|
  {
    if |p| > 0 {
      assert (p + t)[0] == p[0];
      assert (p + t)[1..] == p[1..] + t;
      if |p| > 1 {
        assert (p[1..] + t)[0] == p[1];
        assert p[1..][|p| - 2] == p[|p| - 1];
      }
      RunsSkipPlain(p[1..], t);
    } else {
      assert p + t == t;
    }
  }

  /** A `\n\n` pair in front does not change whether runs are unsplit. */
  lemma PairKeepsRuns(x: string)
    ensures RunsUnsplit("\n\n" + x) <==> RunsUnsplit(x)
  {
    assert ("\n\n" + x)[1..] == "\n" + x;
    assert ("\n" + x)[1..] == x;
  }

  /** A digit in front of an item makes a longer item. */
  lemma ItemExtends(s: string)
    requires |s| > 0 && IsAsciiDigit(s[0])
    ensures ItemAt(s[1..]) ==> ItemAt(s)
  {
    if ItemAt(s[1..]) {
      var j := RunEnd(s[1..], 0, AsciiDigits);
      forall k | 0 <= k < j + 1
        ensures s[k] in AsciiDigits
      {
        if k > 0 {
          assert s[k] == s[1..][k - 1];
        }
      }
      assert s[j + 1] == s[1..][j];
      RunEndAt(s, 0, j + 1, AsciiDigits);
    }
  }

  /** Right after a digit that does not start an item, item insertion does
      not produce a pair followed by a digit: labels are the only targets
      already broken, and they do not start with a digit. */
  lemma NoPairAfterDigit(s: string)
    requires |s| > 0 && IsAsciiDigit(s[0]) && !ItemAt(s)
    requires BreaksOnlyBefore(s[1..], {BeforeProposer, BeforeCoSigners})
    ensures !ItemPairAt(BreakBeforeItems(s[1..]))
  {
    var x := s[1..];
    ItemExtends(s);
    if |x| > 0 {
      if x[0] == '\n' {
        ItemsOverPair(x);
        ItemsKeepLabel(x[2..]);
        var r := BreakBeforeItems(x[2..]);
        assert r[0] == ProposerLabel[0] || r[0] == CoSignerLabel[0];
        assert BreakBeforeItems(x)[2] == r[0];
      } else {
        PlainItemStep(x);
      }
    }
  }

  /** Unsplit runs stay unsplit in every suffix. */
  lemma {:induction false} RunsUnsplitSuffix(s: string, i: nat)
    requires i <= |s|
    ensures RunsUnsplit(s) ==> RunsUnsplit(s[i..])
    decreases i
  {
    if i > 0 && |s| > 0 {
      RunsUnsplitSuffix(s[1..], i - 1);
      assert s[1..][i - 1..] == s[i..];
    }
  }

  /** `(一)1\n\n2.` breaks inside the run `12`, so it is not a possible
      normalisation; the greedy scan gives `(一)\n\n12.` instead. */
  lemma SplitRunRejected()
    ensures !RunsUnsplit("(一)1\n\n2.")
  {
    var bad := "(一)1\n\n2.";
    var tail := bad[3..];
    assert tail == "1\n\n2.";
    assert tail[1..] == "\n\n2.";
    assert !RunsUnsplit(tail);
    RunsUnsplitSuffix(bad, 3);
  }

  /** Item insertion breaks only where a digit run starts: the greedy scan
      takes the leftmost digit of a run, so it never leaves a digit in front
      of its own break. */
  lemma {:induction false} ItemsKeepRunsWhole(s: string)
    requires BreaksOnlyBefore(s, {BeforeProposer, BeforeCoSigners})
    ensures RunsUnsplit(BreakBeforeItems(s))
    decreases |s|
  {
    var labels := {BeforeProposer, BeforeCoSigners};
    if |s| == 0 {
    } else if ItemAt(s) {
      var item, t := ItemSplit(s);
      ItemIsPlain(s);
      BreaksSkipPlain(item, t, labels);
      ItemsKeepRunsWhole(t);
      assert item[|item| - 1] == '.';
      RunsSkipPlain(item, BreakBeforeItems(t));
      PairKeepsRuns(item + BreakBeforeItems(t));
    } else if s[0] == '\n' {
      ItemsOverPair(s);
      ItemsKeepRunsWhole(s[2..]);
      PairKeepsRuns(BreakBeforeItems(s[2..]));
    } else {
      PlainItemStep(s);
      ItemsKeepRunsWhole(s[1..]);
      if IsAsciiDigit(s[0]) {
        NoPairAfterDigit(s);
      }
      RunsSkipPlain([s[0]], BreakBeforeItems(s[1..]));
    }
  }

  /** `s` with every newline deleted. */
  function WithoutNewlines(s: string): (r: string)
    ensures '\n' !in r && |r| <= |s|
  {
    if |s| == 0 then "" else (if s[0] == '\n' then "" else [s[0]]) + WithoutNewlines(s[1..])
  }

  lemma {:induction false} WithoutNewlinesAppend(a: string, b: string)
    ensures WithoutNewlines(a + b) == WithoutNewlines(a) + WithoutNewlines(b)
    decreases |a|
  {
    if |a| > 0 {
      assert (a + b)[1..] == a[1..] + b;
      WithoutNewlinesAppend(a[1..], b);
    } else {
      assert a + b == b;
    }
  }

  lemma {:induction false} WithoutNewlinesPlain(a: string)
    requires '\n' !in a
    ensures WithoutNewlines(a) == a
    decreases |a|
  {
    if |a| > 0 {
      WithoutNewlinesPlain(a[1..]);
      assert a == [a[0]] + a[1..];
    }
  }

  lemma PlainPrefixKept(p: string, x: string)
    requires '\n' !in p
    ensures WithoutNewlines(p + x) == p + WithoutNewlines(x)
  {
    WithoutNewlinesAppend(p, x);
    WithoutNewlinesPlain(p);
  }

  lemma PairDropped(p: string, x: string)
    requires '\n' !in p
    ensures WithoutNewlines("\n\n" + (p + x)) == p + WithoutNewlines(x)
  {
    WithoutNewlinesAppend("\n\n", p + x);
    PlainPrefixKept(p, x);
  }

  lemma ItemStep(s: string)
    requires ItemAt(s)
    ensures var j := RunEnd(s, 0, AsciiDigits);
      BreakBeforeItems(s) == "\n\n" + (s[..j + 1] + BreakBeforeItems(s[j + 1..]))
  {
  }

  /** Label insertion adds newlines and nothing else. */
  lemma {:induction false} BreakBeforeOnlyAddsNewlines(s: string, word: string)
    requires |word| > 0 && '\n' !in word
    ensures WithoutNewlines(BreakBefore(s, word)) == WithoutNewlines(s)
    decreases |s|
  {
    if |s| == 0 {
    } else if StartsWith(s, word) {
      var tail := s[|word|..];
      BreakBeforeOnlyAddsNewlines(tail, word);
      assert BreakBefore(s, word) == "\n\n" + (word + BreakBefore(tail, word));
      PairDropped(word, BreakBefore(tail, word));
      assert s == word + tail;
      PlainPrefixKept(word, tail);
    } else {
      BreakBeforeOnlyAddsNewlines(s[1..], word);
      WithoutNewlinesAppend([s[0]], BreakBefore(s[1..], word));
      assert s == [s[0]] + s[1..];
      WithoutNewlinesAppend([s[0]], s[1..]);
    }
  }

  /** Item insertion adds newlines and nothing else. */
  lemma {:induction false} BreakBeforeItemsOnlyAddsNewlines(s: string)
    ensures WithoutNewlines(BreakBeforeItems(s)) == WithoutNewlines(s)
    decreases |s|
  {
    if |s| == 0 {
    } else if ItemAt(s) {
      var j := RunEnd(s, 0, AsciiDigits);
      BreakBeforeItemsOnlyAddsNewlines(s[j + 1..]);
      ItemIsPlain(s);
      ItemStep(s);
      PairDropped(s[..j + 1], BreakBeforeItems(s[j + 1..]));
      assert s == s[..j + 1] + s[j + 1..];
      PlainPrefixKept(s[..j + 1], s[j + 1..]);
    } else {
      BreakBeforeItemsOnlyAddsNewlines(s[1..]);
      WithoutNewlinesAppend([s[0]], BreakBeforeItems(s[1..]));
      assert s == [s[0]] + s[1..];
      WithoutNewlinesAppend([s[0]], s[1..]);
    }
  }

  /** A `\n\n` pair ends right before index `i` of `s`. */
  predicate BreakAt(s: string, i: nat) {
    2 <= i <= |s| && s[i - 2] == '\n' && s[i - 1] == '\n'
  }

  /** A word a break is put in front of: no newline in it, not starting with
      a digit, and its first character not repeated later in it (so two
      occurrences never overlap). */
  predicate Label(w: string) {
    && |w| > 0 && '\n' !in w && !IsAsciiDigit(w[0])
    && forall k :: 0 < k < |w| ==> w[k] != w[0]
  }

  /** Every occurrence of `w` in `s` has a `\n\n` pair right before it. */
  predicate LabelsBroken(s: string, w: string) {
    forall i :: 0 <= i < |s| && StartsWith(s[i..], w) ==> BreakAt(s, i)
  }

  /** A numbered item starts at `i`: `\d+\.` there, not inside a longer digit run. */
  predicate ItemStart(s: string, i: nat)
    requires i < |s|
  {
    ItemAt(s[i..]) && (i == 0 || !IsAsciiDigit(s[i - 1]))
  }

  /** Every numbered item of `s` has a `\n\n` pair right before it. */
  predicate ItemsBroken(s: string) {
    forall i :: 0 <= i < |s| && ItemStart(s, i) ==> BreakAt(s, i)
  }

  /** One of the three things a break is put in front of starts at `i`. */
  predicate BreakTargetAt(s: string, i: nat)
    requires i < |s|
  {
    StartsWith(s[i..], ProposerLabel) || StartsWith(s[i..], CoSignerLabel) || ItemStart(s, i)
  }

  /** Every `提案人：`, every `連署人：` and every numbered item has a `\n\n`
      pair right before it. */
  predicate EveryTargetBroken(s: string) {
    forall i :: 0 <= i < |s| && BreakTargetAt(s, i) ==> BreakAt(s, i)
  }

  /** A newline-free start of a label insertion's result was already the start of its input. */
  lemma {:induction false} BreakBeforePrefixBack(t: string, w: string, x: string)
    requires |w| > 0 && '\n' !in x
    requires StartsWith(BreakBefore(t, w), x)
    ensures StartsWith(t, x)
    decreases |t|
  {
    var out := BreakBefore(t, w);
    if |x| > 0 {
      assert x[0] == out[0];
      if |t| > 0 && !StartsWith(t, w) {
        assert out == [t[0]] + BreakBefore(t[1..], w);
        assert out[1..][..|x| - 1] == x[1..];
        BreakBeforePrefixBack(t[1..], w, x[1..]);
        assert t[..|x|] == [t[0]] + t[1..][..|x| - 1];
      }
    }
  }

  /** A newline-free start of an item insertion's result was already the start of its input. */
  lemma {:induction false} ItemsPrefixBack(t: string, x: string)
    requires '\n' !in x
    requires StartsWith(BreakBeforeItems(t), x)
    ensures StartsWith(t, x)
    decreases |t|
  {
    var out := BreakBeforeItems(t);
    if |x| > 0 && |t| > 0 && !ItemAt(t) {
      assert out == [t[0]] + BreakBeforeItems(t[1..]);
      assert x[0] == out[0];
      assert out[1..][..|x| - 1] == x[1..];
      ItemsPrefixBack(t[1..], x[1..]);
      assert t[..|x|] == [t[0]] + t[1..][..|x| - 1];
    }
  }

  /** Item insertion never leaves an item at the very front. */
  lemma NoItemAtFront(t: string)
    ensures !ItemAt(BreakBeforeItems(t))
  {
    var out := BreakBeforeItems(t);
    if ItemAt(out) && !ItemAt(t) {
      var j := RunEnd(out, 0, AsciiDigits);
      ItemIsPlain(out);
      ItemsPrefixBack(t, out[..j + 1]);
      RunEndOfPrefix(out, t, 0, AsciiDigits);
    }
  }

  /** `replaceAll(w, "\n\n" + w)` puts a break before every occurrence of `w` it leaves. */
  lemma {:induction false} OwnLabelsBroken(s: string, w: string)
    requires Label(w)
    ensures LabelsBroken(BreakBefore(s, w), w)
    decreases |s|
  {
    var out := BreakBefore(s, w);
    if |s| == 0 {
    } else if StartsWith(s, w) {
      var rest := BreakBefore(s[|w|..], w);
      OwnLabelsBroken(s[|w|..], w);
      assert out == "\n\n" + w + rest;
      forall i | 0 <= i < |out| && StartsWith(out[i..], w)
        ensures BreakAt(out, i)
      {
        assert out[i..][0] == out[i];
        if i >= 2 + |w| {
          assert out[i..] == rest[i - 2 - |w|..];
        }
      }
    } else {
      var rest := BreakBefore(s[1..], w);
      OwnLabelsBroken(s[1..], w);
      assert out == [s[0]] + rest;
      forall i | 0 <= i < |out| && StartsWith(out[i..], w)
        ensures BreakAt(out, i)
      {
        if i == 0 {
          assert out[0..] == out;
          BreakBeforePrefixBack(s, w, w);
        } else {
          assert out[i..] == rest[i - 1..];
        }
      }
    }
  }

  /** Inserting a `\n\n` pair in front of text that does not start with
      `v` keeps every occurrence of `v` broken. */
  lemma InsertPairKeeps(a: string, b: string, v: string)
    requires Label(v) && !StartsWith(b, v)
    requires LabelsBroken(a + b, v)
    ensures LabelsBroken(a + "\n\n" + b, v)
  {
    var s := a + b;
    var out := a + "\n\n" + b;
    forall i | 0 <= i < |out| && StartsWith(out[i..], v)
      ensures BreakAt(out, i)
    {
      if i < |a| + 2 {
        InsertPairBefore(a, b, v, i);
      } else {
        InsertPairAfter(a, b, v, i);
      }
    }
  }

  lemma InsertPairBefore(a: string, b: string, v: string, i: nat)
    requires Label(v) && LabelsBroken(a + b, v)
    requires i < |a| + 2 && i < |a + "\n\n" + b| && StartsWith((a + "\n\n" + b)[i..], v)
    ensures BreakAt(a + "\n\n" + b, i)
  {
    var s := a + b;
    var out := a + "\n\n" + b;
    var k := if i <= |a| then |a| - i else 0;
    assert out[|a|] == '\n' && out[|a| + 1] == '\n';
    assert forall m :: 0 <= m < |v| ==> out[i + m] == v[m];
    if k >= |v| {
      assert s[i..][..|v|] == out[i..][..|v|];
    }
  }

  lemma InsertPairAfter(a: string, b: string, v: string, i: nat)
    requires Label(v) && !StartsWith(b, v) && LabelsBroken(a + b, v)
    requires |a| + 2 <= i < |a + "\n\n" + b| && StartsWith((a + "\n\n" + b)[i..], v)
    ensures BreakAt(a + "\n\n" + b, i)
  {
    var s := a + b;
    var out := a + "\n\n" + b;
    var j := i - 2;
    assert out[i..] == s[j..];
  }

  /** Label insertion for `w` keeps every occurrence of another label `v` broken. */
  lemma {:induction false} LabelStageKeeps(pre: string, s: string, w: string, v: string)
    requires Label(w) && Label(v) && w[0] != v[0]
    requires LabelsBroken(pre + s, v)
    ensures LabelsBroken(pre + BreakBefore(s, w), v)
    decreases |s|
  {
    if |s| == 0 {
      assert BreakBefore(s, w) == s;
    } else if StartsWith(s, w) {
      var pre', t := LabelStageLabel(pre, s, w, v);
      LabelStageKeeps(pre', t, w, v);
    } else {
      PlainLabelStep(s, w);
      assert pre + s == (pre + [s[0]]) + s[1..];
      LabelStageKeeps(pre + [s[0]], s[1..], w, v);
      assert pre + BreakBefore(s, w) == (pre + [s[0]]) + BreakBefore(s[1..], w);
    }
  }

  /** The step of LabelStageKeeps where `w` starts the rest. */
  lemma LabelStageLabel(pre: string, s: string, w: string, v: string) returns (pre': string, t: string)
    requires Label(w) && Label(v) && w[0] != v[0]
    requires StartsWith(s, w) && LabelsBroken(pre + s, v)
    ensures LabelsBroken(pre' + t, v) && |t| < |s|
    ensures pre + BreakBefore(s, w) == pre' + BreakBefore(t, w)
  {
    t := s[|w|..];
    assert BreakBefore(s, w) == "\n\n" + w + BreakBefore(t, w);
    StartsWithHead(s, v);
    InsertPairKeeps(pre, s, v);
    pre' := pre + "\n\n" + w;
    assert pre + "\n\n" + s == pre' + t;
  }

  /** Where the label does not start, the first character is passed through. */
  lemma PlainLabelStep(s: string, w: string)
    requires |w| > 0 && |s| > 0 && !StartsWith(s, w)
    ensures BreakBefore(s, w) == [s[0]] + BreakBefore(s[1..], w)
  {
  }

  /** An item at the front of `s`, and what follows it. */
  lemma ItemSplit(s: string) returns (item: string, t: string)
    requires ItemAt(s)
    ensures s == item + t && |t| < |s| && IsAsciiDigit(s[0])
    ensures item == s[..RunEnd(s, 0, AsciiDigits) + 1] && t == s[RunEnd(s, 0, AsciiDigits) + 1..]
    ensures BreakBeforeItems(s) == "\n\n" + item + BreakBeforeItems(t)
    ensures BreakBeforeItems(s) == "\n\n" + (item + BreakBeforeItems(t))
  {
    var j := RunEnd(s, 0, AsciiDigits);
    item, t := s[..j + 1], s[j + 1..];
    assert "\n\n" + item + BreakBeforeItems(t) == "\n\n" + (item + BreakBeforeItems(t));
  }

  /** Where no item starts, the first character is passed through. */
  lemma PlainItemStep(s: string)
    requires |s| > 0 && !ItemAt(s)
    ensures BreakBeforeItems(s) == [s[0]] + BreakBeforeItems(s[1..])
  {
  }

  /** One step of item insertion, seen from the whole text: the part
      already done grows and the labels stay broken. */
  lemma ItemStageStep(pre: string, s: string, v: string) returns (pre': string, t: string)
    requires Label(v) && |s| > 0
    requires LabelsBroken(pre + s, v)
    ensures LabelsBroken(pre' + t, v) && |t| < |s|
    ensures pre + BreakBeforeItems(s) == pre' + BreakBeforeItems(t)
  {
    if ItemAt(s) {
      pre', t := ItemStageItem(pre, s, v);
    } else {
      PlainItemStep(s);
      pre', t := pre + [s[0]], s[1..];
      assert pre + s == pre' + t;
    }
  }

  /** The step of ItemStageStep where an item starts the rest. */
  lemma ItemStageItem(pre: string, s: string, v: string) returns (pre': string, t: string)
    requires Label(v) && ItemAt(s)
    requires LabelsBroken(pre + s, v)
    ensures LabelsBroken(pre' + t, v) && |t| < |s|
    ensures pre + BreakBeforeItems(s) == pre' + BreakBeforeItems(t)
  {
    var item;
    item, t := ItemSplit(s);
    StartsWithHead(s, v);
    InsertPairKeeps(pre, s, v);
    pre' := pre + "\n\n" + item;
    assert pre + "\n\n" + s == pre' + t;
  }

  /** Item insertion keeps every occurrence of a label broken. */
  lemma {:induction false} ItemStageKeeps(pre: string, s: string, v: string)
    requires Label(v)
    requires LabelsBroken(pre + s, v)
    ensures LabelsBroken(pre + BreakBeforeItems(s), v)
    decreases |s|
  {
    if |s| == 0 {
      assert BreakBeforeItems(s) == s;
    } else {
      var pre', t := ItemStageStep(pre, s, v);
      ItemStageKeeps(pre', t, v);
    }
  }

  /** `replace(/(\d+)\./g, "\n\n$1.")` puts a break before every numbered item it leaves. */
  lemma {:induction false} OwnItemsBroken(s: string)
    ensures ItemsBroken(BreakBeforeItems(s))
    decreases |s|
  {
    var out := BreakBeforeItems(s);
    if |s| == 0 {
    } else if ItemAt(s) {
      var j := RunEnd(s, 0, AsciiDigits);
      var rest := BreakBeforeItems(s[j + 1..]);
      OwnItemsBroken(s[j + 1..]);
      assert out == "\n\n" + s[..j + 1] + rest;
      var item := s[..j + 1];
      assert item[j] == '.';
      assert forall k :: 0 <= k < j ==> IsAsciiDigit(item[k]);
      NoItemAtFront(s[j + 1..]);
      forall i | 0 <= i < |out| && ItemStart(out, i)
        ensures BreakAt(out, i)
      {
        ItemPrefixed(item, rest, i);
      }
    } else {
      var rest := BreakBeforeItems(s[1..]);
      OwnItemsBroken(s[1..]);
      assert out == [s[0]] + rest;
      forall i | 0 <= i < |out| && ItemStart(out, i)
        ensures BreakAt(out, i)
      {
        assert out[i..][0] == out[i];
        if i == 0 {
          assert out[0..] == out;
          NoItemAtFront(s);
        } else if i == 1 {
          assert out[1..] == rest;
          NoItemAtFront(s[1..]);
        } else {
          assert out[i..] == rest[i - 1..];
          assert out[i - 1] == rest[i - 2];
          assert ItemStart(rest, i - 1);
          assert out[i - 2] == rest[i - 3];
        }
      }
    }
  }

  /** `digits.` written out after a break: no item starts inside it, so
      only the one behind the break and the ones in `rest` remain. */
  lemma ItemPrefixed(item: string, rest: string, i: nat)
    requires |item| >= 2 && item[|item| - 1] == '.'
    requires forall k :: 0 <= k < |item| - 1 ==> IsAsciiDigit(item[k])
    requires ItemsBroken(rest) && !ItemAt(rest)
    requires i < |"\n\n" + item + rest| && ItemStart("\n\n" + item + rest, i)
    ensures BreakAt("\n\n" + item + rest, i)
  {
    var out := "\n\n" + item + rest;
    assert out[i..][0] == out[i];
    if i >= 2 + |item| {
      var k := i - 2 - |item|;
      assert out[i..] == rest[k..];
      if k > 0 {
        assert out[i - 1] == rest[k - 1];
        assert ItemStart(rest, k);
        assert out[i - 2] == rest[k - 2] && out[i - 1] == rest[k - 1];
      }
    }
  }

  lemma LabelsAreLabels()
    ensures Label(ProposerLabel) && Label(CoSignerLabel)
    ensures ProposerLabel[0] != CoSignerLabel[0]
  {
  }

  /** The three stages after flattening put a break before every target. */
  lemma StagesBreakEveryTarget(s0: string)
    ensures EveryTargetBroken(BreakBeforeItems(BreakBefore(BreakBefore(s0, ProposerLabel), CoSignerLabel)))
  {
    LabelsAreLabels();
    var s1 := BreakBefore(s0, ProposerLabel);
    var s2 := BreakBefore(s1, CoSignerLabel);
    var s3 := BreakBeforeItems(s2);
    OwnLabelsBroken(s0, ProposerLabel);
    assert "" + s1 == s1;
    LabelStageKeeps("", s1, CoSignerLabel, ProposerLabel);
    assert "" + s2 == s2;
    OwnLabelsBroken(s1, CoSignerLabel);
    ItemStageKeeps("", s2, ProposerLabel);
    ItemStageKeeps("", s2, CoSignerLabel);
    assert "" + s3 == s3;
    OwnItemsBroken(s2);
  }

  const AllBreaks: set<BreakKind> := {BeforeProposer, BeforeCoSigners, BeforeItem}

  /** Normalisation puts every newline of the trimmed piece on one line as an
      ideographic space and then only inserts newlines: deleting them gives
      the flattened piece back. And every newline it leaves comes in a
      `\n\n` pair right before `提案人：`, `連署人：` or a numbered item, and
      each of those has such a pair right before it. An item's pair stands
      where its digit run starts, never inside the run. */
  lemma NormalizeBreaks(piece: string)
    ensures WithoutNewlines(Normalize(piece)) == FlattenLines(Trim(piece))
    ensures BreaksOnlyBefore(Normalize(piece), AllBreaks)
    ensures EveryTargetBroken(Normalize(piece))
    ensures RunsUnsplit(Normalize(piece))
  {
    var s0 := FlattenLines(Trim(piece));
    var s1 := BreakBefore(s0, ProposerLabel);
    var s2 := BreakBefore(s1, CoSignerLabel);
    BreakBeforeOnlyAddsNewlines(s0, ProposerLabel);
    BreakBeforeOnlyAddsNewlines(s1, CoSignerLabel);
    BreakBeforeItemsOnlyAddsNewlines(s2);
    WithoutNewlinesPlain(s0);
    NoNewlineNoBreaks(s0, {});
    BreakBeforePlacesBreaks(s0, BeforeProposer, {});
    assert {} + {BeforeProposer} == {BeforeProposer};
    BreakBeforePlacesBreaks(s1, BeforeCoSigners, {BeforeProposer});
    assert {BeforeProposer} + {BeforeCoSigners} == {BeforeProposer, BeforeCoSigners};
    BreakBeforeItemsPlacesBreaks(s2);
    ItemsKeepRunsWhole(s2);
    StagesBreakEveryTarget(s0);
  }

  /** None of the characters of `m` is one the normalisation looks at. */
  predicate Inert(m: string) {
    forall i :: 0 <= i < |m| ==>
      && m[i] != '\n' && !IsAsciiDigit(m[i]) && !IsJsSpace(m[i])
      && m[i] != ProposerLabel[0] && m[i] != CoSignerLabel[0]
  }

  /** The opening `(…)` of a piece is inert. */
  lemma OpeningInert(piece: string)
    requires OpensProposal(piece)
    ensures Inert(piece[..RunEnd(piece, 1, OrdinalNumerals) + 1])
  {
    var j := RunEnd(piece, 1, OrdinalNumerals);
    var m := piece[..j + 1];
    forall i | 0 <= i < |m|
      ensures m[i] != '\n' && !IsAsciiDigit(m[i]) && !IsJsSpace(m[i])
      ensures m[i] != ProposerLabel[0] && m[i] != CoSignerLabel[0]
    {
      assert m[i] == '(' || m[i] == ')' || m[i] in OrdinalNumerals;
    }
  }

  /** Trimming keeps the opening `(…)`. */
  lemma TrimKeepsOpening(piece: string)
    requires OpensProposal(piece)
    ensures StartsWith(Trim(piece), piece[..RunEnd(piece, 1, OrdinalNumerals) + 1])
  {
    var j := RunEnd(piece, 1, OrdinalNumerals);
    OpeningInert(piece);
    assert !IsJsSpace(piece[..j + 1][j]);
    var t0 := Trim(piece);
    TrimKeepsNonSpaceStart(piece);
    assert TrimStart(piece) == piece;
    assert |t0| > j;
  }

  /** The stages after trimming keep an inert prefix. */
  lemma StagesKeepInertPrefix(t0: string, m: string)
    requires StartsWith(t0, m) && Inert(m)
    ensures StartsWith(Normalize'(t0), m)
  {
    var k := |m|;
    var t1 := FlattenLines(t0);
    assert t1[..k] == m;
    var t2 := BreakBefore(t1, ProposerLabel);
    BreakBeforeKeepsPrefix(t1, ProposerLabel, k);
    var t3 := BreakBefore(t2, CoSignerLabel);
    BreakBeforeKeepsPrefix(t2, CoSignerLabel, k);
    BreakBeforeItemsKeepsPrefix(t3, k);
  }

  /** The opening `(…)` of a kept piece survives normalisation unchanged. */
  lemma NormalizeKeepsOpening(piece: string)
    requires OpensProposal(piece)
    ensures OpensProposal(Normalize(piece))
    ensures StartsWith(Normalize(piece), piece[..RunEnd(piece, 1, OrdinalNumerals) + 1])
  {
    var j := RunEnd(piece, 1, OrdinalNumerals);
    OpeningInert(piece);
    TrimKeepsOpening(piece);
    StagesKeepInertPrefix(Trim(piece), piece[..j + 1]);
    OpeningByPrefix(piece, Normalize(piece));
  }

  /** Whether a text opens a proposal is decided by its opening alone. */
  lemma OpeningByPrefix(u: string, t: string)
    requires OpensProposal(u)
    requires StartsWith(t, u[..RunEnd(u, 1, OrdinalNumerals) + 1])
    ensures OpensProposal(t)
  {
    RunEndOfPrefix(u, t, 1, OrdinalNumerals);
  }

  /** The two filters of `parseProposals`: a piece is kept when it is not
      blank after trimming and opens a proposal. */
  predicate Kept(piece: string) {
    |Trim(piece)| > 0 && OpensProposal(piece)
  }

  /** What normalising a piece that opens a proposal yields. */
  lemma NormalizedSegment(piece: string)
    requires OpensProposal(piece)
    ensures OpensProposal(Normalize(piece)) && BreaksOnlyBefore(Normalize(piece), AllBreaks)
    ensures EveryTargetBroken(Normalize(piece)) && RunsUnsplit(Normalize(piece))
  {
    NormalizeKeepsOpening(piece);
    NormalizeBreaks(piece);
  }

  /** One piece through both filters and the normalisation. */
  function KeepPiece(piece: string): (kept: seq<string>)
    ensures |kept| <= 1
    ensures forall k :: 0 <= k < |kept| ==> OpensProposal(kept[k]) && BreaksOnlyBefore(kept[k], AllBreaks)
    ensures forall k :: 0 <= k < |kept| ==> EveryTargetBroken(kept[k]) && RunsUnsplit(kept[k])
  {
    if Kept(piece) then
      var n := Normalize(piece);
      NormalizedSegment(piece);
      assert [n][0] == n;
      [n]
    else []
  }

  /** The kept pieces, normalised, in document order. */
  function KeepPieces(pieces: seq<string>): (segments: seq<string>)
    ensures |segments| <= |pieces|
    ensures forall k :: 0 <= k < |segments| ==> OpensProposal(segments[k])
    ensures forall k :: 0 <= k < |segments| ==> BreaksOnlyBefore(segments[k], AllBreaks)
    ensures forall k :: 0 <= k < |segments| ==> EveryTargetBroken(segments[k])
    ensures forall k :: 0 <= k < |segments| ==> RunsUnsplit(segments[k])
  {
    if |pieces| == 0 then [] else KeepPiece(pieces[0]) + KeepPieces(pieces[1..])
  }

  /** `parseProposals(text)`. */
  function ParseProposals(text: string): (segments: seq<string>)
    ensures |segments| <= |Sections(text)|
    ensures forall k :: 0 <= k < |segments| ==> OpensProposal(segments[k])
    ensures forall k :: 0 <= k < |segments| ==> BreaksOnlyBefore(segments[k], AllBreaks)
    ensures forall k :: 0 <= k < |segments| ==> EveryTargetBroken(segments[k])
    ensures forall k :: 0 <= k < |segments| ==> RunsUnsplit(segments[k])
  {
    KeepPieces(Sections(text))
  }

  /** Keeping works piece by piece, so the kept segments stay in document order. */
  lemma {:induction false} KeepPiecesAppend(a: seq<string>, b: seq<string>)
    ensures KeepPieces(a + b) == KeepPieces(a) + KeepPieces(b)
    decreases |a|
  {
    if |a| == 0 {
      assert a + b == b;
    } else {
      assert (a + b)[0] == a[0];
      assert (a + b)[1..] == a[1..] + b;
      KeepPiecesAppend(a[1..], b);
    }
  }

  /** The blank-after-trim filter never removes anything the second filter
      would keep: a piece is kept exactly when it opens a proposal, and then
      it becomes its normalisation. */
  lemma KeepOne(piece: string)
    ensures KeepPieces([piece]) == if OpensProposal(piece) then [Normalize(piece)] else []
  {
    assert KeepPieces([piece]) == KeepPiece(piece) + KeepPieces([]);
    if OpensProposal(piece) {
      TrimKeepsOpening(piece);
    }
    assert [piece][1..] == [];
  }

  /** Which pieces open a proposal: those cut at a `(…)` marker whose
      numerals hold no ○. Pieces opened by `第N項` or `第N款`, by a marker
      with ○, or not by a marker at all (the preamble, typically) are not. */
  lemma KeptOpeningIff(piece: string)
    ensures OpensProposal(piece) <==>
      && OpensWithParen(piece, SectionNumerals)
      && '○' !in piece[1..RunEnd(piece, 1, SectionNumerals)]
  {
    if OpensProposal(piece) {
      var j := RunEnd(piece, 1, OrdinalNumerals);
      assert forall k :: 1 <= k < j ==> piece[k] in SectionNumerals;
      RunEndAt(piece, 1, j, SectionNumerals);
      assert forall k :: 1 <= k < j ==> piece[k] != '○';
    }
    if OpensWithParen(piece, SectionNumerals) && '○' !in piece[1..RunEnd(piece, 1, SectionNumerals)] {
      var j := RunEnd(piece, 1, SectionNumerals);
      forall k | 1 <= k < j
        ensures piece[k] in OrdinalNumerals
      {
        assert piece[k] == piece[1..j][k - 1];
      }
      RunEndAt(piece, 1, j, OrdinalNumerals);
    }
  }

  /** A document whose first piece does not open a proposal loses that
      piece, and every later piece that is kept came from a cut point. */
  lemma PreambleDropped(text: string)
    requires !OpensProposal(Sections(text)[0])
    ensures ParseProposals(text) == KeepPieces(Sections(text)[1..])
  {
    var pieces := Sections(text);
    assert pieces == [pieces[0]] + pieces[1..];
    KeepPiecesAppend([pieces[0]], pieces[1..]);
    KeepOne(pieces[0]);
  }
}

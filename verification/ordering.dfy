/** The ordering saveFile (convert-md-to-json.js) applies before every write:
    `Array.prototype.sort` by content, then again by category. The sort is
    stable, so the second pass keeps the content order among records of one
    category. `localeCompare` is not modelled character by character: it is
    a parameter `le` ("compares at most 0") that must be a total preorder. */
module Ordering {
  import opened Records

  ghost predicate TotalPreorder(le: (string, string) -> bool) {
    && (forall a :: le(a, a))
    && (forall a, b, c :: le(a, b) && le(b, c) ==> le(a, c))
    && (forall a, b :: le(a, b) || le(b, a))
  }

  /** Keys that compare as equal. */
  predicate Tied(le: (string, string) -> bool, a: string, b: string) {
    le(a, b) && le(b, a)
  }

  /** Ordered by `key` under `le`. */
  ghost predicate SortedBy<T>(s: seq<T>, key: T -> string, le: (string, string) -> bool) {
    forall i, j :: 0 <= i < j < |s| ==> le(key(s[i]), key(s[j]))
  }

  /** Every pair whose keys tie stands in relation `r`, earlier element first. */
  ghost predicate TiesRelated<T>(s: seq<T>, key: T -> string, le: (string, string) -> bool, r: (T, T) -> bool) {
    forall i, j :: 0 <= i < j < |s| && Tied(le, key(s[i]), key(s[j])) ==> r(s[i], s[j])
  }

  /** Place `x` after every element whose key is not greater: the step of a
      stable insertion sort, `x` being the latest element. */
  function InsertBy<T>(x: T, s: seq<T>, key: T -> string, le: (string, string) -> bool): (out: seq<T>)
    requires TotalPreorder(le) && SortedBy(s, key, le)
    ensures multiset(out) == multiset(s) + multiset{x}
    ensures |out| == |s| + 1
    ensures forall i :: 0 <= i < |out| ==> out[i] == x || out[i] in s
    ensures SortedBy(out, key, le)
  {
    if |s| == 0 then [x]
    else if le(key(s[|s| - 1]), key(x)) then s + [x]
    else
      var init := InsertBy(x, s[..|s| - 1], key, le);
      assert s == s[..|s| - 1] + [s[|s| - 1]];
      InsertBeforeLast(x, s, init, key, le);
      init + [s[|s| - 1]]
  }

  lemma InsertBeforeLast<T>(x: T, s: seq<T>, init: seq<T>, key: T -> string, le: (string, string) -> bool)
    requires TotalPreorder(le) && SortedBy(s, key, le) && |s| > 0
    requires !le(key(s[|s| - 1]), key(x))
    requires SortedBy(init, key, le)
    requires forall i :: 0 <= i < |init| ==> init[i] == x || init[i] in s[..|s| - 1]
    ensures SortedBy(init + [s[|s| - 1]], key, le)
  {
    var out := init + [s[|s| - 1]];
    forall i, j | 0 <= i < j < |out|
      ensures le(key(out[i]), key(out[j]))
    {
      if j < |init| {
        assert out[i] == init[i] && out[j] == init[j];
      } else if init[i] != x {
        var l :| 0 <= l < |s| - 1 && s[..|s| - 1][l] == init[i];
        assert s[l] == out[i];
      }
    }
  }

  /** A stable sort of `s` by `key`: `s.sort((a, b) => key(a).localeCompare(key(b)))`. */
  function SortBy<T>(s: seq<T>, key: T -> string, le: (string, string) -> bool): (out: seq<T>)
    requires TotalPreorder(le)
    ensures multiset(out) == multiset(s)
    ensures |out| == |s|
    ensures SortedBy(out, key, le)
  {
    if |s| == 0 then []
    else
      assert s == s[..|s| - 1] + [s[|s| - 1]];
      InsertBy(s[|s| - 1], SortBy(s[..|s| - 1], key, le), key, le)
  }

  /** Inserting the latest element keeps tied pairs related, provided it is
      related to every earlier element it ties with. */
  lemma {:induction false} InsertKeepsTies<T>(x: T, s: seq<T>, key: T -> string, le: (string, string) -> bool, r: (T, T) -> bool)
    requires TotalPreorder(le) && SortedBy(s, key, le) && TiesRelated(s, key, le, r)
    requires forall y :: y in s && Tied(le, key(y), key(x)) ==> r(y, x)
    ensures TiesRelated(InsertBy(x, s, key, le), key, le, r)
  {
    var out := InsertBy(x, s, key, le);
    if |s| > 0 && !le(key(s[|s| - 1]), key(x)) {
      var init := s[..|s| - 1];
      InsertKeepsTies(x, init, key, le, r);
      var front := InsertBy(x, init, key, le);
      assert out == front + [s[|s| - 1]];
      forall i, j | 0 <= i < j < |out| && Tied(le, key(out[i]), key(out[j]))
        ensures r(out[i], out[j])
      {
        if j < |front| {
          assert out[i] == front[i] && out[j] == front[j];
        } else {
          assert out[i] == front[i];
          if front[i] != x {
            var l :| 0 <= l < |init| && init[l] == front[i];
            assert s[l] == out[i];
          }
        }
      }
    } else if |s| > 0 {
      assert out == s + [x];
      forall i, j | 0 <= i < j < |out| && Tied(le, key(out[i]), key(out[j]))
        ensures r(out[i], out[j])
      {
        if j < |s| {
          assert out[i] == s[i] && out[j] == s[j];
        } else {
          assert out[i] == s[i] && s[i] in s;
        }
      }
    }
  }

  /** The sort is stable: any relation between tied elements in input
      order still holds between them in output order. */
  lemma {:induction false} SortKeepsTies<T>(s: seq<T>, key: T -> string, le: (string, string) -> bool, r: (T, T) -> bool)
    requires TotalPreorder(le) && TiesRelated(s, key, le, r)
    ensures TiesRelated(SortBy(s, key, le), key, le, r)
  {
    if |s| > 0 {
      var init := s[..|s| - 1];
      var x := s[|s| - 1];
      assert TiesRelated(init, key, le, r) by {
        forall i, j | 0 <= i < j < |init| && Tied(le, key(init[i]), key(init[j]))
          ensures r(init[i], init[j])
        {
          assert init[i] == s[i] && init[j] == s[j];
        }
      }
      SortKeepsTies(init, key, le, r);
      var sorted := SortBy(init, key, le);
      forall y | y in sorted && Tied(le, key(y), key(x))
        ensures r(y, x)
      {
        assert y in multiset(sorted);
        var l :| 0 <= l < |init| && init[l] == y;
        assert s[l] == y;
      }
      InsertKeepsTies(x, sorted, key, le, r);
    }
  }

  function Category(e: Entry): string {
    e.proposal.category
  }

  function Content(e: Entry): string {
    e.proposal.content
  }

  /** What every written file is: ordered by category, and by content within
      a category. */
  ghost predicate InSaveOrder(s: seq<Entry>, le: (string, string) -> bool) {
    && SortedBy(s, Category, le)
    && forall i, j :: 0 <= i < j < |s| && Tied(le, Category(s[i]), Category(s[j])) ==> le(Content(s[i]), Content(s[j]))
  }

  /** The two sorts of saveFile: by content, then by category. */
  function SaveOrder(s: seq<Entry>, le: (string, string) -> bool): (out: seq<Entry>)
    requires TotalPreorder(le)
    ensures multiset(out) == multiset(s)
    ensures InSaveOrder(out, le)
  {
    var byContent := SortBy(s, Content, le);
    var contentLe := (a: Entry, b: Entry) => le(Content(a), Content(b));
    assert TiesRelated(byContent, Category, le, contentLe);
    SortKeepsTies(byContent, Category, le, contentLe);
    SortBy(byContent, Category, le)
  }

  /** Sorting a sequence that is already ordered leaves it as it is. */
  lemma {:induction false} SortSortedIsIdentity<T>(s: seq<T>, key: T -> string, le: (string, string) -> bool)
    requires TotalPreorder(le) && SortedBy(s, key, le)
    ensures SortBy(s, key, le) == s
  {
    if |s| > 0 {
      var init := s[..|s| - 1];
      assert SortedBy(init, key, le);
      SortSortedIsIdentity(init, key, le);
      assert s == init + [s[|s| - 1]];
    }
  }
}

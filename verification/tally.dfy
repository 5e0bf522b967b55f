/** The frequency table of the consensus vote in convertProrosalToObject
    (convert-md-to-json.js): a plain JavaScript object used as a map from
    `JSON.stringify(value)` to a count, and the scan over `for (const value
    in values)` that picks the most frequent key.

    Keys are modelled by the values themselves: on the values the extraction
    schema admits (integers, null, strings) `JSON.stringify` is injective and
    `JSON.parse` inverts it. The order in which a JavaScript object
    enumerates its keys is modelled explicitly: keys that are canonical array
    indices (the decimal form of an integer from 0 to 2^32 - 2) come first,
    in ascending numeric order, and all other keys follow in the order they
    were first inserted. */
module Tally {
  import opened Records

  /** Number of occurrences of `v` in `vs`. */
  function Count(vs: seq<Value>, v: Value): (c: nat)
    ensures c <= |vs|
    ensures c == 0 <==> v !in vs
  {
    if |vs| == 0 then 0
    else Count(vs[..|vs| - 1], v) + (if vs[|vs| - 1] == v then 1 else 0)
  }

  /** Position of the first occurrence of `v` in `vs`, or `|vs|` if none. */
  function FirstIndex(vs: seq<Value>, v: Value): (r: nat)
    ensures r <= |vs|
    ensures r < |vs| <==> v in vs
    ensures r < |vs| ==> vs[r] == v
    ensures forall i :: 0 <= i < r ==> vs[i] != v
  {
    if |vs| == 0 then 0 else if vs[0] == v then 0 else 1 + FirstIndex(vs[1..], v)
  }

  /** Appending a value does not move any earlier first occurrence. */
  lemma FirstIndexAppend(vs: seq<Value>, x: Value, v: Value)
    requires v in vs
    ensures FirstIndex(vs + [x], v) == FirstIndex(vs, v)
  {
    var r := FirstIndex(vs, v);
    var r' := FirstIndex(vs + [x], v);
    assert (vs + [x])[r] == v;
    assert r' <= r;
    assert vs[r'] == v;
  }

  /** The largest integer whose decimal form is an array-index property key. */
  const MaxArrayIndex: int := 4294967294

  predicate IsIndexKey(v: Value) {
    v.Num? && 0 <= v.n <= MaxArrayIndex
  }

  /** In an object whose keys were inserted in the order the values of `vs`
      first occur, key `a` is enumerated before key `b`. */
  predicate EnumeratesBefore(vs: seq<Value>, a: Value, b: Value) {
    if IsIndexKey(a) && IsIndexKey(b) then a.n < b.n
    else if IsIndexKey(a) then true
    else if IsIndexKey(b) then false
    else FirstIndex(vs, a) < FirstIndex(vs, b)
  }

  /** Enumeration order is a strict order on distinct keys. */
  lemma EnumeratesBeforeAsymmetric(vs: seq<Value>, a: Value, b: Value)
    requires EnumeratesBefore(vs, a, b)
    ensures !EnumeratesBefore(vs, b, a)
  {
  }

  /** A table entry: a key and how often it was counted. */
  type KeyCount = (Value, nat)
  type Table = seq<KeyCount>

  function Keys(t: Table): (ks: seq<Value>)
    ensures |ks| == |t| && forall i :: 0 <= i < |t| ==> ks[i] == t[i].0
  {
    seq(|t|, i requires 0 <= i < |t| => t[i].0)
  }

  /** An object never holds the same key twice. */
  predicate DistinctKeys(t: Table) {
    forall i, j :: 0 <= i < j < |t| ==> t[i].0 != t[j].0
  }

  /** Where key `x` sits in `t`, or `|t|` if it is not there. */
  function KeyIndex(t: Table, x: Value): (i: nat)
    ensures i <= |t|
    ensures i < |t| ==> t[i].0 == x && x in Keys(t)
    ensures i == |t| ==> x !in Keys(t)
    ensures forall j :: 0 <= j < i ==> t[j].0 != x
  {
    if |t| == 0 then 0
    else if t[0].0 == x then
      assert Keys(t)[0] == x;
      0
    else
      var i := KeyIndex(t[1..], x);
      assert Keys(t) == [t[0].0] + Keys(t[1..]);
      1 + i
  }

  /** `table[x] = (table[x] || 0) + 1`: an existing key keeps its place and
      gains one; a new key goes last with count one. */
  function Bump(t: Table, x: Value): (r: Table)
    requires DistinctKeys(t)
    ensures x in Keys(t) ==> |r| == |t| && forall j :: 0 <= j < |t| ==>
      r[j].0 == t[j].0 && r[j].1 == (if t[j].0 == x then t[j].1 + 1 else t[j].1)
    ensures x !in Keys(t) ==> r == t + [(x, 1)]
  {
    var i := KeyIndex(t, x);
    if i == |t| then t + [(x, 1)]
    else t[i := (x, t[i].1 + 1)]
  }

  /** The table describes `vs`: its keys are the values of `vs` and each
      count is the number of occurrences. */
  ghost predicate Describes(t: Table, vs: seq<Value>) {
    && (forall i :: 0 <= i < |t| ==> t[i].0 in vs && t[i].1 == Count(vs, t[i].0))
    && (forall v :: v in vs ==> (v, Count(vs, v)) in t)
  }

  /** Keys sit in the order of their first occurrence in `vs`. */
  ghost predicate InInsertionOrder(t: Table, vs: seq<Value>) {
    forall i, j :: 0 <= i < j < |t| ==> FirstIndex(vs, t[i].0) < FirstIndex(vs, t[j].0)
  }

  /** The frequency table after counting every value of `vs` in order. */
  function TallyOf(vs: seq<Value>): (t: Table)
    ensures Describes(t, vs)
    ensures InInsertionOrder(t, vs)
  {
    if |vs| == 0 then []
    else
      var t0 := TallyOf(vs[..|vs| - 1]);
      BumpKeepsDescription(t0, vs[..|vs| - 1], vs[|vs| - 1]);
      assert vs[..|vs| - 1] + [vs[|vs| - 1]] == vs;
      Bump(t0, vs[|vs| - 1])
  }

  lemma CountAppend(vs: seq<Value>, x: Value, v: Value)
    ensures Count(vs + [x], v) == Count(vs, v) + (if x == v then 1 else 0)
  {
    assert (vs + [x])[..|vs|] == vs;
  }

  /** Counting over a concatenation adds the counts of the parts. */
  lemma {:induction false} CountConcat(xs: seq<Value>, ys: seq<Value>, v: Value)
    ensures Count(xs + ys, v) == Count(xs, v) + Count(ys, v)
    decreases |ys|
  {
    if |ys| == 0 {
      assert xs + ys == xs;
    } else {
      var init := ys[..|ys| - 1];
      CountConcat(xs, init, v);
      assert (xs + ys)[..|xs + ys| - 1] == xs + init;
    }
  }

  lemma InsertionOrderDistinct(t: Table, vs: seq<Value>)
    requires InInsertionOrder(t, vs)
    ensures DistinctKeys(t)
  {
  }

  /** Counting a value already in the table. */
  lemma BumpExisting(t: Table, vs: seq<Value>, x: Value, i: nat)
    requires Describes(t, vs) && InInsertionOrder(t, vs)
    requires i < |t| && t[i].0 == x
    ensures DistinctKeys(t)
    ensures Describes(Bump(t, x), vs + [x]) && InInsertionOrder(Bump(t, x), vs + [x])
  {
    InsertionOrderDistinct(t, vs);
    assert Keys(t)[i] == x;
    ExistingCounts(t, vs, x, i);
    ExistingCovers(t, vs, x, i);
  }

  lemma ExistingCounts(t: Table, vs: seq<Value>, x: Value, i: nat)
    requires Describes(t, vs) && InInsertionOrder(t, vs) && DistinctKeys(t)
    requires i < |t| && t[i].0 == x && x in Keys(t)
    ensures forall k :: 0 <= k < |t| ==> Bump(t, x)[k].0 in vs + [x] && Bump(t, x)[k].1 == Count(vs + [x], Bump(t, x)[k].0)
    ensures InInsertionOrder(Bump(t, x), vs + [x])
  {
    var r := Bump(t, x);
    forall k | 0 <= k < |t|
      ensures r[k].0 in vs + [x] && r[k].1 == Count(vs + [x], r[k].0)
      ensures FirstIndex(vs + [x], r[k].0) == FirstIndex(vs, t[k].0)
    {
      CountAppend(vs, x, r[k].0);
      FirstIndexAppend(vs, x, t[k].0);
    }
  }

  lemma ExistingCovers(t: Table, vs: seq<Value>, x: Value, i: nat)
    requires Describes(t, vs) && DistinctKeys(t)
    requires i < |t| && t[i].0 == x && x in Keys(t)
    ensures forall v :: v in vs + [x] ==> (v, Count(vs + [x], v)) in Bump(t, x)
  {
    var vs' := vs + [x];
    var r := Bump(t, x);
    forall v | v in vs'
      ensures (v, Count(vs', v)) in r
    {
      CountAppend(vs, x, v);
      if v == x {
        assert r[i] == (x, Count(vs', x));
      } else {
        assert v in vs;
        var j :| 0 <= j < |t| && t[j] == (v, Count(vs, v));
        assert r[j] == (v, Count(vs', v));
      }
    }
  }

  /** Counting a value the table does not have yet. */
  lemma BumpNew(t: Table, vs: seq<Value>, x: Value)
    requires Describes(t, vs) && InInsertionOrder(t, vs)
    requires x !in Keys(t)
    ensures DistinctKeys(t)
    ensures Describes(Bump(t, x), vs + [x]) && InInsertionOrder(Bump(t, x), vs + [x])
  {
    InsertionOrderDistinct(t, vs);
    forall j | 0 <= j < |t|
      ensures t[j] != (x, Count(vs, x))
    {
      assert Keys(t)[j] == t[j].0;
    }
    assert x !in vs;
    NewCounts(t, vs, x);
    NewCovers(t, vs, x);
    NewOrder(t, vs, x);
  }

  lemma NewCounts(t: Table, vs: seq<Value>, x: Value)
    requires Describes(t, vs) && DistinctKeys(t) && x !in Keys(t) && x !in vs
    ensures forall k :: 0 <= k < |t| + 1 ==> Bump(t, x)[k].0 in vs + [x] && Bump(t, x)[k].1 == Count(vs + [x], Bump(t, x)[k].0)
  {
    var r := Bump(t, x);
    forall k | 0 <= k < |t| + 1
      ensures r[k].0 in vs + [x] && r[k].1 == Count(vs + [x], r[k].0)
    {
      CountAppend(vs, x, r[k].0);
      if k < |t| {
        assert r[k] == t[k];
        assert t[k].0 != x by { assert Keys(t)[k] == t[k].0; }
      } else {
        assert r[k] == (x, 1);
      }
    }
  }

  lemma NewCovers(t: Table, vs: seq<Value>, x: Value)
    requires Describes(t, vs) && DistinctKeys(t) && x !in Keys(t) && x !in vs
    ensures forall v :: v in vs + [x] ==> (v, Count(vs + [x], v)) in Bump(t, x)
  {
    var vs' := vs + [x];
    var r := Bump(t, x);
    forall v | v in vs'
      ensures (v, Count(vs', v)) in r
    {
      CountAppend(vs, x, v);
      if v == x {
        assert r[|t|] == (x, 1);
      } else {
        var j :| 0 <= j < |t| && t[j] == (v, Count(vs, v));
        assert r[j] == (v, Count(vs', v));
      }
    }
  }

  lemma NewOrder(t: Table, vs: seq<Value>, x: Value)
    requires Describes(t, vs) && InInsertionOrder(t, vs) && DistinctKeys(t) && x !in Keys(t) && x !in vs
    ensures InInsertionOrder(Bump(t, x), vs + [x])
  {
    var vs' := vs + [x];
    var r := Bump(t, x);
    assert r == t + [(x, 1)];
    assert FirstIndex(vs', x) == |vs|;
    forall k | 0 <= k < |t|
      ensures FirstIndex(vs', r[k].0) == FirstIndex(vs, t[k].0) < |vs|
    {
      assert r[k] == t[k] && t[k].0 in vs;
      FirstIndexAppend(vs, x, t[k].0);
    }
    forall i, j | 0 <= i < j < |r|
      ensures FirstIndex(vs', r[i].0) < FirstIndex(vs', r[j].0)
    {
      if j < |t| {
        assert FirstIndex(vs, t[i].0) < FirstIndex(vs, t[j].0);
      } else {
        assert r[j] == (x, 1);
      }
    }
  }

  /** Counting one more value keeps the table describing the values, in order. */
  lemma BumpKeepsDescription(t: Table, vs: seq<Value>, x: Value)
    requires Describes(t, vs) && InInsertionOrder(t, vs)
    ensures DistinctKeys(t)
    ensures Describes(Bump(t, x), vs + [x]) && InInsertionOrder(Bump(t, x), vs + [x])
  {
    if x in Keys(t) {
      var i :| 0 <= i < |t| && Keys(t)[i] == x;
      BumpExisting(t, vs, x, i);
    } else {
      BumpNew(t, vs, x);
    }
  }

  /** `a` is enumerated no later than `b`: the order of `EnumeratesBefore`
      with ties allowed. */
  predicate NotAfter(vs: seq<Value>, a: Value, b: Value) {
    if IsIndexKey(a) && IsIndexKey(b) then a.n <= b.n
    else if IsIndexKey(a) then true
    else if IsIndexKey(b) then false
    else FirstIndex(vs, a) <= FirstIndex(vs, b)
  }

  /** On two different values that both occur, "no later" is "before". */
  lemma NotAfterDistinct(vs: seq<Value>, a: Value, b: Value)
    requires a in vs && b in vs && a != b && NotAfter(vs, a, b)
    ensures EnumeratesBefore(vs, a, b)
  {
    if !IsIndexKey(a) && !IsIndexKey(b) {
      assert vs[FirstIndex(vs, a)] == a;
      assert vs[FirstIndex(vs, b)] == b;
    }
  }

  predicate AllIndexKeys(s: Table) {
    forall i :: 0 <= i < |s| ==> IsIndexKey(s[i].0)
  }

  predicate Ascending(s: Table)
    requires AllIndexKeys(s)
  {
    forall i, j :: 0 <= i < j < |s| ==> s[i].0.n <= s[j].0.n
  }

  /** One step of an insertion sort by numeric key. */
  function InsertByNumber(x: KeyCount, s: Table): (r: Table)
    requires IsIndexKey(x.0) && AllIndexKeys(s) && Ascending(s)
    ensures |r| == |s| + 1
    ensures multiset(r) == multiset(s) + multiset{x}
    ensures forall i :: 0 <= i < |r| ==> r[i] == x || r[i] in s
    ensures AllIndexKeys(r) && Ascending(r)
  {
    if |s| == 0 then [x]
    else if x.0.n <= s[0].0.n then [x] + s
    else
      var rest := InsertByNumber(x, s[1..]);
      assert s == [s[0]] + s[1..];
      InsertAfterHead(x, s, rest);
      [s[0]] + rest
  }

  lemma InsertAfterHead(x: KeyCount, s: Table, rest: Table)
    requires IsIndexKey(x.0) && AllIndexKeys(s) && Ascending(s) && |s| > 0
    requires x.0.n > s[0].0.n
    requires AllIndexKeys(rest) && Ascending(rest)
    requires forall i :: 0 <= i < |rest| ==> rest[i] == x || rest[i] in s[1..]
    ensures AllIndexKeys([s[0]] + rest) && Ascending([s[0]] + rest)
  {
    var r := [s[0]] + rest;
    forall i, j | 0 <= i < j < |r|
      ensures r[i].0.n <= r[j].0.n
    {
      if i == 0 {
        assert r[j] == rest[j - 1];
        if rest[j - 1] != x {
          var l :| 0 <= l < |s[1..]| && s[1..][l] == rest[j - 1];
          assert s[l + 1] == r[j];
        }
      } else {
        assert r[i] == rest[i - 1] && r[j] == rest[j - 1];
      }
    }
  }

  /** The index keys of an object, in the ascending order they are enumerated. */
  function SortByNumber(s: Table): (r: Table)
    requires AllIndexKeys(s)
    ensures multiset(r) == multiset(s)
    ensures AllIndexKeys(r) && Ascending(r)
  {
    if |s| == 0 then []
    else
      assert s == [s[0]] + s[1..];
      InsertByNumber(s[0], SortByNumber(s[1..]))
  }

  /** The entries whose keys are array indices, in table order. */
  function IndexEntries(t: Table): (r: Table)
    ensures AllIndexKeys(r)
    ensures forall x :: x in r <==> x in t && IsIndexKey(x.0)
  {
    if |t| == 0 then []
    else if IsIndexKey(t[0].0) then [t[0]] + IndexEntries(t[1..])
    else IndexEntries(t[1..])
  }

  /** The entries whose keys are not array indices, in table order. */
  function OtherEntries(t: Table): (r: Table)
    ensures forall x :: x in r <==> x in t && !IsIndexKey(x.0)
  {
    if |t| == 0 then []
    else if IsIndexKey(t[0].0) then OtherEntries(t[1..])
    else [t[0]] + OtherEntries(t[1..])
  }

  /** Every entry is an index entry or another entry, never both. */
  lemma {:induction false} EntriesPartition(t: Table)
    ensures multiset(IndexEntries(t)) + multiset(OtherEntries(t)) == multiset(t)
  {
    if |t| > 0 {
      EntriesPartition(t[1..]);
      assert t == [t[0]] + t[1..];
    }
  }

  /** Keeping some entries keeps them in insertion order. */
  lemma {:induction false} OtherEntriesInOrder(t: Table, vs: seq<Value>)
    requires InInsertionOrder(t, vs)
    ensures InInsertionOrder(OtherEntries(t), vs)
  {
    if |t| > 0 {
      OtherEntriesInOrder(t[1..], vs);
      if !IsIndexKey(t[0].0) {
        ConsInOrder(t, vs, OtherEntries(t[1..]));
      }
    }
  }

  /** The first entry of an ordered table may go in front of any ordered
      selection of the remaining entries. */
  lemma ConsInOrder(t: Table, vs: seq<Value>, rest: Table)
    requires |t| > 0 && InInsertionOrder(t, vs) && InInsertionOrder(rest, vs)
    requires forall x :: x in rest ==> x in t[1..]
    ensures InInsertionOrder([t[0]] + rest, vs)
  {
    var r := [t[0]] + rest;
    forall i, j | 0 <= i < j < |r|
      ensures FirstIndex(vs, r[i].0) < FirstIndex(vs, r[j].0)
    {
      assert r[j] == rest[j - 1];
      if i == 0 {
        assert rest[j - 1] in rest;
        var l :| 0 <= l < |t[1..]| && t[1..][l] == r[j];
        assert t[l + 1] == r[j];
      } else {
        assert r[i] == rest[i - 1];
      }
    }
  }

  /** `Object.keys(table)` with each key's count: index keys ascending, then
      the other keys in insertion order. */
  function EnumOrder(t: Table): (e: Table)
    ensures forall x :: x in e <==> x in t
    ensures multiset(e) == multiset(t)
  {
    EntriesPartition(t);
    var r := SortByNumber(IndexEntries(t));
    assert forall x :: x in r <==> x in multiset(r);
    r + OtherEntries(t)
  }

  /** Entries of the enumeration come in enumeration order. */
  lemma EnumOrderOrdered(t: Table, vs: seq<Value>)
    requires InInsertionOrder(t, vs)
    ensures forall i, j :: 0 <= i < j < |EnumOrder(t)| ==> NotAfter(vs, EnumOrder(t)[i].0, EnumOrder(t)[j].0)
  {
    var a := SortByNumber(IndexEntries(t));
    var b := OtherEntries(t);
    OtherEntriesInOrder(t, vs);
    var e := EnumOrder(t);
    assert e == a + b;
    forall i, j | 0 <= i < j < |e|
      ensures NotAfter(vs, e[i].0, e[j].0)
    {
      if j < |a| {
        assert e[i] == a[i] && e[j] == a[j];
      } else if i >= |a| {
        assert e[i] == b[i - |a|] && e[j] == b[j - |a|];
        assert b[i - |a|] in b && b[j - |a|] in b;
      } else {
        assert e[i] == a[i];
        assert e[j] == b[j - |a|] && b[j - |a|] in b;
      }
    }
  }

  /** The scan `for (const value in values) if (values[value] > maxCount)`
      started at the first key: the position it ends on. */
  function FirstMax(e: Table): (k: nat)
    requires |e| > 0
    ensures k < |e|
    ensures forall i :: 0 <= i < |e| ==> e[i].1 <= e[k].1
    ensures forall i :: 0 <= i < k ==> e[i].1 < e[k].1
  {
    if |e| == 1 then 0
    else
      var m := FirstMax(e[..|e| - 1]);
      assert e[..|e| - 1][m] == e[m];
      if e[|e| - 1].1 > e[m].1 then |e| - 1 else m
  }

  /** What the vote promises: `w` occurs in `vs`, no value occurs more often,
      and every other value that occurs as often is enumerated after it. */
  ghost predicate IsPluralityWinner(vs: seq<Value>, w: Value) {
    && w in vs
    && (forall v :: v in vs ==> Count(vs, v) <= Count(vs, w))
    && (forall v :: v in vs && v != w && Count(vs, v) == Count(vs, w) ==> EnumeratesBefore(vs, w, v))
  }

  /** The most frequent value of `vs` as the vote picks it: tally, enumerate
      the keys, keep the first strictly larger count. */
  function Plurality(vs: seq<Value>): (w: Value)
    requires |vs| > 0
    ensures IsPluralityWinner(vs, w)
  {
    var t := TallyOf(vs);
    var e := EnumOrder(t);
    assert (vs[0], Count(vs, vs[0])) in e;
    var k := FirstMax(e);
    EnumOrderOrdered(t, vs);
    ScanPicksWinner(vs, e, k);
    e[k].0
  }

  lemma ScanPicksWinner(vs: seq<Value>, e: Table, k: nat)
    requires Describes(e, vs)
    requires forall i, j :: 0 <= i < j < |e| ==> NotAfter(vs, e[i].0, e[j].0)
    requires k < |e|
    requires forall i :: 0 <= i < |e| ==> e[i].1 <= e[k].1
    requires forall i :: 0 <= i < k ==> e[i].1 < e[k].1
    ensures IsPluralityWinner(vs, e[k].0)
  {
    var w := e[k].0;
    forall v | v in vs
      ensures Count(vs, v) <= Count(vs, w)
      ensures v != w && Count(vs, v) == Count(vs, w) ==> EnumeratesBefore(vs, w, v)
    {
      var j :| 0 <= j < |e| && e[j] == (v, Count(vs, v));
      if v != w && Count(vs, v) == Count(vs, w) {
        assert j != k;
        assert k < j;
        NotAfterDistinct(vs, w, v);
      }
    }
  }

  /** The vote's promise determines its outcome. */
  lemma PluralityWinnerUnique(vs: seq<Value>, a: Value, b: Value)
    requires IsPluralityWinner(vs, a) && IsPluralityWinner(vs, b)
    ensures a == b
  {
    if a != b {
      EnumeratesBeforeAsymmetric(vs, a, b);
    }
  }

  /** Between two values, the one counted strictly more often wins. */
  lemma MoreFrequentWins(vs: seq<Value>, a: Value, b: Value)
    requires |vs| > 0 && forall k :: 0 <= k < |vs| ==> vs[k] == a || vs[k] == b
    requires Count(vs, a) > Count(vs, b)
    ensures Plurality(vs) == a
  {
    assert IsPluralityWinner(vs, a);
    PluralityWinnerUnique(vs, Plurality(vs), a);
  }

  /** A three-way tie among amounts goes to the smallest, not the first seen. */
  lemma TieGoesToSmallestAmount()
    ensures Plurality([Num(300), Num(200), Num(100)]) == Num(100)
  {
    var vs := [Num(300), Num(200), Num(100)];
    assert Count(vs, Num(100)) == 1 && Count(vs, Num(200)) == 1 && Count(vs, Num(300)) == 1;
    assert forall v :: v in vs ==> v == Num(300) || v == Num(200) || v == Num(100);
    assert IsPluralityWinner(vs, Num(100));
    PluralityWinnerUnique(vs, Plurality(vs), Num(100));
  }

  /** A null seen first loses a tie to an amount. */
  lemma NullLosesTieToAmount()
    ensures Plurality([Null, Num(100)]) == Num(100)
  {
    var vs := [Null, Num(100)];
    assert Count(vs, Num(100)) == 1 && Count(vs, Null) == 1;
    PluralityWinnerUnique(vs, Plurality(vs), Num(100));
  }

  /** An amount too large to be an array index ranks with the text keys. */
  lemma LargeAmountLosesTie()
    ensures Plurality([Num(5000000000), Num(100)]) == Num(100)
  {
    var vs := [Num(5000000000), Num(100)];
    assert Count(vs, Num(100)) == 1 && Count(vs, Num(5000000000)) == 1;
    PluralityWinnerUnique(vs, Plurality(vs), Num(100));
  }

  /** Between text keys, the first seen wins a tie. */
  lemma TextTieGoesToFirstSeen()
    ensures Plurality([Str("凍結"), Str("減列")]) == Str("凍結")
  {
    var a, b := Str("凍結"), Str("減列");
    assert a != b by { assert a.s[0] != b.s[0]; }
    var vs := [a, b];
    assert Count(vs, a) == 1 && Count(vs, b) == 1;
    assert FirstIndex(vs, a) == 0 && FirstIndex(vs, b) == 1;
    assert IsPluralityWinner(vs, a);
    PluralityWinnerUnique(vs, Plurality(vs), a);
  }

  /** A strict majority wins whatever the order. */
  lemma MajorityWins()
    ensures Plurality([Num(100), Null, Null]) == Null
  {
    var vs := [Num(100), Null, Null];
    assert vs[..2] == [Num(100), Null] && vs[..2][..1] == [Num(100)];
    assert Count(vs, Null) == 2 && Count(vs, Num(100)) == 1;
    MoreFrequentWins(vs, Null, Num(100));
  }

  /** Costs 100, 100, 200 give 100. */
  lemma RepeatedAmountWins()
    ensures Plurality([Num(100), Num(100), Num(200)]) == Num(100)
  {
    var vs := [Num(100), Num(100), Num(200)];
    assert vs[..2] == [Num(100), Num(100)] && vs[..2][..1] == [Num(100)];
    assert Count(vs, Num(100)) == 2 && Count(vs, Num(200)) == 1;
    MoreFrequentWins(vs, Num(100), Num(200));
  }
}

/** The data the pipeline moves around: JavaScript values as JSON carries
    them, the proposal record the extraction schema describes, and the record
    tagged with its committee as it is written to the per-document JSON file. */
module Records {
  import opened Strings

  datatype Option<+T> = None | Some(value: T)

  /** A JavaScript value as `JSON.parse` produces it, plus `Undefined` for a
      key the object does not have. Numbers are integers in this model. */
  datatype Value =
    | Undefined
    | Null
    | Bool(b: bool)
    | Num(n: int)
    | Str(s: string)
    | Arr(items: seq<Value>)

  /** JavaScript truthiness: an array is truthy even when empty. */
  predicate Truthy(v: Value) {
    match v
    case Undefined => false
    case Null => false
    case Bool(b) => b
    case Num(n) => n != 0
    case Str(s) => s != ""
    case Arr(_) => true
  }

  /** `String(v)`, which is what a template literal `${v}` inserts. */
  function Display(v: Value): string
    decreases v, 0
  {
    match v
    case Undefined => "undefined"
    case Null => "null"
    case Bool(b) => if b then "true" else "false"
    case Num(n) => IntToDecimal(n)
    case Str(s) => s
    case Arr(items) => ArrayJoin(items, ",")
  }

  /** How `Array.prototype.join` renders one element: null and undefined
      become the empty string, everything else its `String` form. */
  function ElementText(v: Value): string
    decreases v, 1
  {
    if v.Null? || v.Undefined? then "" else Display(v)
  }

  /** `items.join(sep)`. */
  function ArrayJoin(items: seq<Value>, sep: string): (s: string)
    decreases items
  {
    if |items| == 0 then ""
    else if |items| == 1 then ElementText(items[0])
    else ElementText(items[0]) + sep + ArrayJoin(items[1..], sep)
  }

  /** Joining an array of strings is joining the strings. */
  lemma {:induction false} ArrayJoinOfStrings(items: seq<Value>, sep: string)
    requires forall k :: 0 <= k < |items| ==> items[k].Str?
    ensures ArrayJoin(items, sep) == Join(StringsOf(items), sep)
    decreases items
  {
    if |items| > 0 {
      assert ElementText(items[0]) == StringsOf(items)[0];
    }
    if |items| > 1 {
      ArrayJoinOfStrings(items[1..], sep);
      assert StringsOf(items[1..]) == StringsOf(items)[1..];
    }
  }

  function StringsOf(items: seq<Value>): (names: seq<string>)
    requires forall k :: 0 <= k < |items| ==> items[k].Str?
    ensures |names| == |items|
    ensures forall k :: 0 <= k < |items| ==> items[k] == Str(names[k])
  {
    seq(|items|, k requires 0 <= k < |items| => items[k].s)
  }

  /** The proposal record the extraction oracle returns, one per proposal. */
  datatype Proposal = Proposal(
    category: string,
    content: string,
    action: Value,
    proposer: Value,
    coSigners: Value,
    cost: Value,
    frozen: Value,
    deleted: Value,
    added: Value,
    remarks: Value)

  /** A record as the per-document loop accumulates it: the proposal with its
      committee added. */
  datatype Entry = Entry(proposal: Proposal, committee: string)

  const Actions: set<string> := {"減列", "凍結", "減列與凍結", "其他建議", "照列", "增列"}

  predicate IsStringArray(v: Value) {
    v.Arr? && forall k :: 0 <= k < |v.items| ==> v.items[k].Str?
  }

  predicate IsAmount(v: Value) {
    v.Null? || v.Num?
  }

  /** What the extraction schema lets through: an action from the closed
      set, a list of proposer names, co-signers as a list or null (a missing
      list defaults to the empty one), amounts as numbers or null, remarks
      as text or null. */
  predicate SchemaValid(p: Proposal) {
    && p.action.Str? && p.action.s in Actions
    && IsStringArray(p.proposer)
    && (p.coSigners.Null? || IsStringArray(p.coSigners))
    && IsAmount(p.cost) && IsAmount(p.frozen) && IsAmount(p.deleted) && IsAmount(p.added)
    && (p.remarks.Null? || p.remarks.Str?)
  }

  /** The five fields the consensus vote decides. */
  datatype VotedField = Cost | Action | Frozen | Deleted | Added

  const VotedFields: seq<VotedField> := [Cost, Action, Frozen, Deleted, Added]

  function Get(p: Proposal, f: VotedField): Value {
    match f
    case Cost => p.cost
    case Action => p.action
    case Frozen => p.frozen
    case Deleted => p.deleted
    case Added => p.added
  }
}

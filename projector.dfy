/**
 * The state projector: `parse_transactions` replays the ledger in order and
 * builds an insertion-ordered dictionary from each transaction's dest to the
 * current attributes of that validator.
 */
module Projector {
  import opened Wrappers
  import opened Json
  import opened Decoder

  /** The keys a validator's dictionary can hold: the seven fields,
      `identifier` and `dest`. */
  datatype Key = Field(attr: Attr) | Identifier | Dest

  function KeyName(k: Key): string
  {
    match k
    case Field(a) => AttrName(a)
    case Identifier => "identifier"
    case Dest => "dest"
  }

  /** The nine keys stand for nine distinct names in the source's dictionaries. */
  lemma KeyNamesDistinct(k1: Key, k2: Key)
    ensures KeyName(k1) == KeyName(k2) ==> k1 == k2
  {
    if KeyName(k1) == KeyName(k2) {
      if k1.Field? && k2.Field? {
        AttrNamesDistinct(k1.attr, k2.attr);
      }
    }
  }

  /** One validator's attribute dictionary. */
  type Entry = map<Key, Value>

  /** An insertion-ordered dictionary: `order` lists the keys of `entries` in
      the order they were first inserted. */
  datatype Table = Table(order: seq<Value>, entries: map<Value, Entry>)

  const Empty: Table := Table([], map[])

  datatype ParseError =
    | BadProtocolVersion          // the `return 1` for a version other than "1" or "2"
    | MalformedRecord(index: nat) // the exception raised while handling ledger line `index`

  /** Every entry maps `dest` to its own key and carries an `identifier`. */
  ghost predicate WellFormedEntry(dest: Value, e: Entry)
  {
    Dest in e && e[Dest] == dest && Identifier in e
  }

  ghost predicate WellFormed(t: Table)
  {
    && (forall i, j :: 0 <= i < j < |t.order| ==> t.order[i] != t.order[j])
    && (forall d :: d in t.order <==> d in t.entries)
    && (forall d :: d in t.entries ==> WellFormedEntry(d, t.entries[d]))
  }

  /** The keys of the seven recognised fields. */
  const FieldKeys: set<Key> :=
    {Field(Alias), Field(BlsKey), Field(ClientIp), Field(ClientPort), Field(NodeIp), Field(NodePort), Field(Services)}

  /** The recognised fields of a fragment as dictionary items. */
  function FieldItems(fields: Attributes): Entry
  {
    map k | k in FieldKeys && k.Field? && k.attr in fields :: fields[k.attr]
  }

  /** What one fragment does to the entry for its dest: recognised fields
      overwrite, `identifier` is set only if absent, `dest` is re-stamped. */
  function UpdateEntry(e: Entry, f: Fragment): Entry
  {
    var withFields := e + FieldItems(f.fields);
    var withIdentifier :=
      if Identifier in withFields then withFields
      else withFields[Identifier := f.identifier];
    withIdentifier[Dest := f.dest]
  }

  /** Applying one fragment to the dictionary; a new dest goes to the end. */
  function Step(t: Table, f: Fragment): Table
  {
    if f.dest in t.entries then
      Table(t.order, t.entries[f.dest := UpdateEntry(t.entries[f.dest], f)])
    else
      Table(t.order + [f.dest], t.entries[f.dest := UpdateEntry(map[], f)])
  }

  /** Whatever the entry was, the updated one is well formed for the fragment's dest. */
  lemma UpdateEntryWellFormed(e: Entry, f: Fragment)
    ensures WellFormedEntry(f.dest, UpdateEntry(e, f))
  {
  }

  /** A step changes only its dest's entry, and appends that dest when new. */
  lemma StepShape(t: Table, f: Fragment)
    ensures f.dest in t.entries ==> Step(t, f).order == t.order
    ensures f.dest !in t.entries ==> Step(t, f).order == t.order + [f.dest]
    ensures Step(t, f).entries.Keys == t.entries.Keys + {f.dest}
    ensures forall d :: d in t.entries && d != f.dest ==> Step(t, f).entries[d] == t.entries[d]
    ensures WellFormedEntry(f.dest, Step(t, f).entries[f.dest])
  {
    UpdateEntryWellFormed(if f.dest in t.entries then t.entries[f.dest] else map[], f);
  }

  /** Appending a new element keeps a sequence free of repeats. */
  lemma AppendDistinct(o: seq<Value>, x: Value)
    requires forall i, j :: 0 <= i < j < |o| ==> o[i] != o[j]
    requires x !in o
    ensures forall i, j :: 0 <= i < j < |o + [x]| ==> (o + [x])[i] != (o + [x])[j]
  {
    forall i, j | 0 <= i < j < |o + [x]|
      ensures (o + [x])[i] != (o + [x])[j]
    {
      if j == |o| {
        assert (o + [x])[i] == o[i];
      }
    }
  }

  /** A step keeps the dictionary well formed. */
  lemma StepWellFormed(t: Table, f: Fragment)
    requires WellFormed(t)
    ensures WellFormed(Step(t, f))
  {
    var t' := Step(t, f);
    StepShape(t, f);
    if f.dest !in t.entries {
      AppendDistinct(t.order, f.dest);
    }
    assert forall d :: d in t'.order <==> d in t'.entries;
    forall d | d in t'.entries
      ensures WellFormedEntry(d, t'.entries[d])
    {
      if d != f.dest {
        assert d in t.entries;
      }
    }
  }

  /** The dictionary after applying the fragments in order. */
  function Fold(frags: seq<Fragment>): Table
    decreases |frags|
  {
    if frags == [] then Empty
    else Step(Fold(frags[..|frags| - 1]), frags[|frags| - 1])
  }

  /** The dictionary after any sequence of fragments is well formed. */
  lemma {:induction false} FoldWellFormed(frags: seq<Fragment>)
    ensures WellFormed(Fold(frags))
    decreases |frags|
  {
    if frags != [] {
      FoldWellFormed(frags[..|frags| - 1]);
      StepWellFormed(Fold(frags[..|frags| - 1]), frags[|frags| - 1]);
    }
  }

  /** Decoding the ledger lines in order: null-dest records are dropped, the
      first malformed record or an unrecognised version stops the replay. */
  function DecodeAll(ledger: seq<Value>, version: string): Result<seq<Fragment>, ParseError>
    decreases |ledger|
  {
    if ledger == [] then Ok([])
    else
      var n := |ledger| - 1;
      match DecodeAll(ledger[..n], version)
      case Err(e) => Err(e)
      case Ok(frags) =>
        match ProtocolOf(version)
        case None => Err(BadProtocolVersion)
        case Some(p) =>
          match Decode(p, ledger[n])
          case Skip => Ok(frags)
          case Target(f) => Ok(frags + [f])
          case Malformed => Err(MalformedRecord(n))
  }

  /** The result of `parse_transactions`. */
  function Replay(ledger: seq<Value>, version: string): Result<Table, ParseError>
  {
    match DecodeAll(ledger, version)
    case Err(e) => Err(e)
    case Ok(frags) => Ok(Fold(frags))
  }

  /** Once a prefix of the ledger fails, the whole replay fails the same way. */
  lemma {:induction false} FailureIsFinal(ledger: seq<Value>, k: nat, version: string)
    requires k <= |ledger|
    requires DecodeAll(ledger[..k], version).Err?
    ensures DecodeAll(ledger, version) == DecodeAll(ledger[..k], version)
    decreases |ledger| - k
  {
    if k < |ledger| {
      assert ledger[..k + 1][..k] == ledger[..k];
      FailureIsFinal(ledger, k + 1, version);
    } else {
      assert ledger[..k] == ledger;
    }
  }

  /** Decoding one more line under a recognised protocol. */
  lemma DecodeNext(ledger: seq<Value>, i: nat, version: string, frags: seq<Fragment>, p: Protocol)
    requires i < |ledger|
    requires DecodeAll(ledger[..i], version) == Ok(frags)
    requires ProtocolOf(version) == Some(p)
    ensures Decode(p, ledger[i]).Skip? ==> DecodeAll(ledger[..i + 1], version) == Ok(frags)
    ensures Decode(p, ledger[i]).Target? ==>
              DecodeAll(ledger[..i + 1], version) == Ok(frags + [Decode(p, ledger[i]).fragment])
    ensures Decode(p, ledger[i]).Malformed? ==> DecodeAll(ledger[..i + 1], version) == Err(MalformedRecord(i))
  {
    assert ledger[..i + 1][..i] == ledger[..i];
  }

  /** Folding one more fragment is one more step. */
  lemma FoldSnoc(frags: seq<Fragment>, f: Fragment)
    ensures Fold(frags + [f]) == Step(Fold(frags), f)
  {
    assert (frags + [f])[..|frags|] == frags;
  }

  /** The body of the loop for one decoded record: insert the dest if new,
      merge the recognised fields, set `identifier` if absent, stamp `dest`. */
  method ApplyFragment(order: seq<Value>, validators: map<Value, Entry>, f: Fragment)
    returns (order': seq<Value>, validators': map<Value, Entry>)
    ensures Table(order', validators') == Step(Table(order, validators), f)
  {
    ghost var previous := if f.dest in validators then validators[f.dest] else map[];
    order', validators' := order, validators;
    if f.dest !in validators' {
      order' := order' + [f.dest];
      validators' := validators'[f.dest := map[]];
    }
    assert validators' == validators[f.dest := previous];
    var entry := validators'[f.dest] + FieldItems(f.fields);
    if Identifier !in entry {
      entry := entry[Identifier := f.identifier];
    }
    validators' := validators'[f.dest := entry[Dest := f.dest]];
    assert validators[f.dest := previous][f.dest := UpdateEntry(previous, f)]
           == validators[f.dest := UpdateEntry(previous, f)];
  }

  /** parse_transactions: one pass over the ledger, updating the ordered keys
      and the dictionary of entries in place. */
  method ParseTransactions(ledger: seq<Value>, version: string) returns (r: Result<Table, ParseError>)
    ensures r == Replay(ledger, version)
    ensures r.Ok? ==> WellFormed(r.value)
  {
    var order: seq<Value> := [];
    var validators: map<Value, Entry> := map[];
    ghost var frags: seq<Fragment> := [];
    var i := 0;
    while i < |ledger|
      invariant 0 <= i <= |ledger|
      invariant DecodeAll(ledger[..i], version) == Ok(frags)
      invariant Table(order, validators) == Fold(frags)
    {
      var decoded: Decoded;
      if version == "1" {
        decoded := Decode1(ledger[i]);
        DecodeNext(ledger, i, version, frags, V1);
      } else if version == "2" {
        decoded := Decode2(ledger[i]);
        DecodeNext(ledger, i, version, frags, V2);
      } else {
        assert ledger[..i + 1][..i] == ledger[..i];
        FailureIsFinal(ledger, i + 1, version);
        return Err(BadProtocolVersion);
      }
      match decoded {
        case Skip =>
        case Malformed =>
          FailureIsFinal(ledger, i + 1, version);
          return Err(MalformedRecord(i));
        case Target(f) =>
          order, validators := ApplyFragment(order, validators, f);
          FoldSnoc(frags, f);
          frags := frags + [f];
      }
      i := i + 1;
    }
    assert ledger[..i] == ledger;
    FoldWellFormed(frags);
    r := Ok(Table(order, validators));
  }
}

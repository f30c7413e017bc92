/**
 * The record decoder: one already-parsed ledger line, read under protocol
 * version 1 or 2, becomes a normalised fragment (target dest, recognised
 * attributes, identifier), a skip signal (null dest) or a malformed record.
 */
module Decoder {
  import opened Wrappers
  import opened Json

  /** The seven data fields copied from a transaction's `data` object. */
  datatype Attr = Alias | BlsKey | ClientIp | ClientPort | NodeIp | NodePort | Services

  const AllAttrs: set<Attr> := {Alias, BlsKey, ClientIp, ClientPort, NodeIp, NodePort, Services}

  /** The key under which each field appears in `data` and in the result. */
  function AttrName(a: Attr): string
  {
    match a
    case Alias => "alias"
    case BlsKey => "blskey"
    case ClientIp => "client_ip"
    case ClientPort => "client_port"
    case NodeIp => "node_ip"
    case NodePort => "node_port"
    case Services => "services"
  }

  /** The recognised field values of one record. */
  type Attributes = map<Attr, Value>

  datatype Fragment = Fragment(dest: Value, fields: Attributes, identifier: Value)

  datatype Decoded =
    | Skip                          // the record's dest is null
    | Target(fragment: Fragment)    // an update addressed to `fragment.dest`
    | Malformed                     // a lookup the source does not guard would raise

  datatype Protocol = V1 | V2

  /** The protocol-version selector: only the strings "1" and "2" are recognised. */
  function ProtocolOf(version: string): (r: Option<Protocol>)
    ensures r == Some(V1) <==> version == "1"
    ensures r == Some(V2) <==> version == "2"
  {
    if version == "1" then Some(V1)
    else if version == "2" then Some(V2)
    else None
  }

  /** The recognised part of a `data` object; every other field is ignored. */
  function Recognised(data: map<string, Value>): (r: Attributes)
  {
    map a | a in AllAttrs && AttrName(a) in data :: data[AttrName(a)]
  }

  /** A field is kept exactly when `data` has its key, with that key's value. */
  lemma RecognisedFields(data: map<string, Value>, a: Attr)
    ensures a in Recognised(data) <==> AttrName(a) in data
    ensures a in Recognised(data) ==> Recognised(data)[a] == data[AttrName(a)]
  {
    assert a in AllAttrs;
  }

  /** Any key of `data` other than the seven field names is ignored: adding,
      changing or removing it leaves the recognised fields as they were. */
  lemma RecognisedIgnoresOthers(data: map<string, Value>, k: string, v: Value)
    requires forall a: Attr :: AttrName(a) != k
    ensures Recognised(data[k := v]) == Recognised(data)
    ensures Recognised(data - {k}) == Recognised(data)
  {
  }

  /** Writing a field's key in `data` writes exactly that field. */
  lemma RecognisedOverwrite(data: map<string, Value>, a: Attr, v: Value)
    ensures Recognised(data[AttrName(a) := v]) == Recognised(data)[a := v]
  {
    forall b | b in AllAttrs {
      AttrNamesDistinct(a, b);
    }
  }

  /** Two `data` objects give the same recognised fields exactly when they agree
      on the seven field names, whatever else they hold. */
  lemma RecognisedAgree(data: map<string, Value>, data': map<string, Value>)
    ensures Recognised(data) == Recognised(data') <==>
              forall a: Attr :: Fetch(data, AttrName(a)) == Fetch(data', AttrName(a))
  {
    if Recognised(data) == Recognised(data') {
      forall a: Attr ensures Fetch(data, AttrName(a)) == Fetch(data', AttrName(a)) {
        RecognisedFields(data, a);
        RecognisedFields(data', a);
      }
    } else {
      var a :| (a in Recognised(data)) != (a in Recognised(data'))
               || (a in Recognised(data) && a in Recognised(data') && Recognised(data)[a] != Recognised(data')[a]);
      RecognisedFields(data, a);
      RecognisedFields(data', a);
    }
  }

  /** The value under key `k`, or `None` when `data` lacks it. */
  function Fetch(data: map<string, Value>, k: string): Option<Value>
  {
    if k in data then Some(data[k]) else None
  }

  /** The seven field names are distinct, so no two fields share a key. */
  lemma AttrNamesDistinct(a: Attr, b: Attr)
    ensures AttrName(a) == AttrName(b) ==> a == b
  {
    if AttrName(a) == AttrName(b) {
      assert AttrName(a)[..2] == AttrName(b)[..2];
      assert |AttrName(a)| == |AttrName(b)|;
      if a.ClientIp? || a.ClientPort? || a.NodeIp? || a.NodePort? {
        assert AttrName(a)[|AttrName(a)| - 2] == AttrName(b)[|AttrName(b)| - 2];
      }
    }
  }

  /** Shared tail of both layouts, from the three looked-up values. */
  function Normalise(dest: Option<Value>, data: Option<Value>, identifier: Option<Value>): Decoded
  {
    match dest
    case None => Malformed
    case Some(d) =>
      if d == Null then Skip
      else if data.None? || identifier.None? || !Hashable(d) || !data.value.Obj? then Malformed
      else Target(Fragment(d, Recognised(data.value.members), identifier.value))
  }

  /** Protocol 1: `line[1].dest`, `line[1].data`, `line[1].identifier`. */
  function Decode1(line: Value): Decoded
  {
    match Index(line, 1)
    case None => Malformed
    case Some(body) => Normalise(Get(body, "dest"), Get(body, "data"), Get(body, "identifier"))
  }

  /** Protocol 2: `line.txn.data.dest`, `line.txn.data.data`, `line.txn.metadata.from`. */
  function Decode2(line: Value): Decoded
  {
    Normalise(GetPath(line, ["txn", "data", "dest"]),
              GetPath(line, ["txn", "data", "data"]),
              GetPath(line, ["txn", "metadata", "from"]))
  }

  function Decode(p: Protocol, line: Value): Decoded
  {
    match p
    case V1 => Decode1(line)
    case V2 => Decode2(line)
  }

  /** A protocol-1 record carrying the given dest, data and identifier. */
  ghost predicate Layout1(line: Value, dest: Value, data: Value, identifier: Value)
  {
    && line.Arr? && |line.elems| > 1
    && var body := line.elems[1];
    && body.Obj?
    && "dest" in body.members && body.members["dest"] == dest
    && "data" in body.members && body.members["data"] == data
    && "identifier" in body.members && body.members["identifier"] == identifier
  }

  /** A protocol-2 record carrying the given dest, data and originator (`from`). */
  ghost predicate Layout2(line: Value, dest: Value, data: Value, from: Value)
  {
    && line.Obj? && "txn" in line.members
    && var txn := line.members["txn"];
    && txn.Obj? && "data" in txn.members && "metadata" in txn.members
    && var body := txn.members["data"];
    && var meta := txn.members["metadata"];
    && body.Obj?
    && "dest" in body.members && body.members["dest"] == dest
    && "data" in body.members && body.members["data"] == data
    && meta.Obj? && "from" in meta.members && meta.members["from"] == from
  }

  /** The dest slot a protocol reads first, and tests against null. */
  ghost function DestSlot(p: Protocol, line: Value): Option<Value>
  {
    match p
    case V1 =>
      if line.Arr? && |line.elems| > 1 && line.elems[1].Obj? && "dest" in line.elems[1].members
      then Some(line.elems[1].members["dest"]) else None
    case V2 =>
      if line.Obj? && "txn" in line.members && line.members["txn"].Obj?
         && "data" in line.members["txn"].members && line.members["txn"].members["data"].Obj?
         && "dest" in line.members["txn"].members["data"].members
      then Some(line.members["txn"].members["data"].members["dest"]) else None
  }

  /** The record `line` carries fragment `f` in the layout of protocol `p`:
      a hashable non-null dest, a `data` object whose recognised fields are
      `f.fields`, and the identifier. */
  ghost predicate Carries(p: Protocol, line: Value, f: Fragment)
  {
    && f.dest != Null && Hashable(f.dest)
    && exists data :: f.fields == Recognised(data) &&
         match p
         case V1 => Layout1(line, f.dest, Obj(data), f.identifier)
         case V2 => Layout2(line, f.dest, Obj(data), f.identifier)
  }

  /** A record decodes to a fragment exactly when its layout carries that
      fragment; a record lacking the identifier (or `from`) or the `data` object
      does not decode to one. */
  lemma TargetIffLayout(p: Protocol, line: Value, f: Fragment)
    ensures Decode(p, line) == Target(f) <==> Carries(p, line, f)
  {
    if Decode(p, line) == Target(f) {
      match p
      case V1 =>
        var data := line.elems[1].members["data"].members;
        assert Layout1(line, f.dest, Obj(data), f.identifier);
      case V2 =>
        var data := line.members["txn"].members["data"].members["data"].members;
        assert Layout2(line, f.dest, Obj(data), f.identifier);
    }
  }

  /** A record is skipped exactly when the dest slot of its layout holds null. */
  lemma SkipIffNullDest(p: Protocol, line: Value)
    ensures Decode(p, line) == Skip <==> DestSlot(p, line) == Some(Null)
  {
  }

  /** Two records of the two layouts carrying the same dest, data and
      identifier decode alike, to the fragment of the recognised fields. */
  lemma ProtocolsAgree(line1: Value, line2: Value, dest: Value, data: Value, identifier: Value)
    requires Layout1(line1, dest, data, identifier)
    requires Layout2(line2, dest, data, identifier)
    ensures Decode(V1, line1) == Decode(V2, line2)
    ensures dest == Null ==> Decode(V1, line1) == Skip
    ensures dest != Null && Hashable(dest) && data.Obj? ==>
              Decode(V1, line1) == Target(Fragment(dest, Recognised(data.members), identifier))
    ensures dest != Null && !(Hashable(dest) && data.Obj?) ==> Decode(V1, line1) == Malformed
  {
  }
}
